/** The question generator's handling of the language model's reply: locate
    the JSON array between the first `[` and the last `]`, then parse it.
    The reply itself comes from a remote model and is an arbitrary string;
    the JSON parser is a parameter `loads`, a total function that answers
    `None` where `json.loads` raises a decoding error. */
module Questions {
  import opened Wrappers
  import opened PyStr

  /** The outcome of the boundary search: either a bracket is missing, or the
      text `response[start:end + 1]` that is handed to the parser. */
  datatype Boundaries = NoBoundaries | Candidate(text: string)

  /** The boundary search: `start = response.find('[')`,
      `end = response.rfind(']')`, and the slice when both exist. */
  function ExtractJsonArray(response: string): (r: Boundaries)
    ensures r.NoBoundaries? <==> '[' !in response || ']' !in response
    ensures r.Candidate? && r.text != [] ==>
      |r.text| >= 2 && r.text[0] == '[' && r.text[|r.text| - 1] == ']'
    ensures r.Candidate? ==> |r.text| <= |response|
  {
    var start := Find(response, '[');
    var end := RFind(response, ']');
    if start != -1 && end != -1 then Candidate(Slice(response, start, end + 1))
    else NoBoundaries
  }

  /** `generate_technical_questions` after the model call: `None` when a
      bracket is missing (no parse is attempted) and otherwise whatever the
      parser makes of the candidate text. */
  function GenerateQuestions<J>(response: string, loads: string -> Option<J>): (r: Option<J>)
    ensures '[' !in response || ']' !in response ==> r == None
    ensures r.Some? ==> exists t :: ExtractJsonArray(response) == Candidate(t) && loads(t) == r
    ensures ExtractJsonArray(response).Candidate? ==> r == loads(ExtractJsonArray(response).text)
  {
    match ExtractJsonArray(response)
    case NoBoundaries => None
    case Candidate(t) => loads(t)
  }

  /** Every `[` comes after every `]`: no bracket pair encloses anything. */
  predicate BracketsCrossed(s: string)
  {
    forall i, j :: 0 <= i < j < |s| && s[i] == '[' ==> s[j] != ']'
  }

  // ---------------------------------------------------------------------
  // Facts about the boundary search

  /** When the first `[` comes before the last `]`, the candidate is exactly
      the inclusive slice between them, and that is what gets parsed. */
  lemma ExtractSpansBrackets(s: string, i: int, j: int)
    requires 0 <= i < j < |s|
    requires s[i] == '[' && '[' !in s[..i]
    requires s[j] == ']' && ']' !in s[j + 1..]
    ensures ExtractJsonArray(s) == Candidate(s[i..j + 1])
  {
    assert '[' in s && ']' in s by {
      assert s[i] in s && s[j] in s;
    }
    BracketBounds(s);
    var start, end := Find(s, '['), RFind(s, ']');
    forall k | 0 <= k < i ensures s[k] != '[' {
      assert s[..i][k] == s[k];
    }
    forall k | j < k < |s| ensures s[k] != ']' {
      assert s[j + 1..][k - j - 1] == s[k];
    }
    assert s[start] == '[' && s[end] == ']';
    assert start == i && end == j;
    assert Slice(s, start, end + 1) == s[start..end + 1];
  }

  /** With both brackets in order, the parser sees exactly the inclusive
      slice from the first `[` to the last `]`. */
  lemma GenerateParsesSpan<J>(s: string, i: int, j: int, loads: string -> Option<J>)
    requires 0 <= i < j < |s|
    requires s[i] == '[' && '[' !in s[..i]
    requires s[j] == ']' && ']' !in s[j + 1..]
    ensures GenerateQuestions(s, loads) == loads(s[i..j + 1])
  {
    ExtractSpansBrackets(s, i, j);
  }

  /** `find` and `rfind` give the extreme brackets: no `[` before the
      first and no `]` after the last. */
  lemma BracketBounds(s: string)
    requires '[' in s && ']' in s
    ensures var start, end := Find(s, '['), RFind(s, ']');
      0 <= start && 0 <= end &&
      (forall k :: 0 <= k < start ==> s[k] != '[') &&
      (forall k :: end < k < |s| ==> s[k] != ']')
  {
    var start, end := Find(s, '['), RFind(s, ']');
    forall k | 0 <= k < start ensures s[k] != '[' {
      assert s[..start][k] == s[k];
    }
    forall k | end < k < |s| ensures s[k] != ']' {
      assert s[end + 1..][k - end - 1] == s[k];
    }
  }

  /** The first `[` and the last `]` bound the candidate: no `[` occurs
      before it, no `]` after it, and when the two are in order the
      candidate is the inclusive slice between them. */
  lemma CandidateIsOutermost(s: string)
    requires '[' in s && ']' in s
    ensures var start, end := Find(s, '['), RFind(s, ']');
      0 <= start && 0 <= end &&
      (forall k :: 0 <= k < start ==> s[k] != '[') &&
      (forall k :: end < k < |s| ==> s[k] != ']') &&
      (start < end ==> ExtractJsonArray(s) == Candidate(s[start..end + 1]))
  {
    BracketBounds(s);
    var start, end := Find(s, '['), RFind(s, ']');
    if start < end {
      ExtractSpansBrackets(s, start, end);
    }
  }

  /** Both brackets present but in the wrong order: Python's slice of
      crossed bounds is the empty string, and that is the candidate, exactly
      when every `[` comes after every `]`. */
  lemma {:induction false} CrossedBracketsGiveEmptyCandidate(s: string)
    requires '[' in s && ']' in s
    ensures ExtractJsonArray(s) == Candidate("") <==> BracketsCrossed(s)
  {
    var start, end := Find(s, '['), RFind(s, ']');
    BracketBounds(s);
    if start < end {
      assert !BracketsCrossed(s) by {
        assert s[start] == '[' && s[end] == ']';
      }
      assert ExtractJsonArray(s).text[0] == '[';
    } else {
      assert Slice(s, start, end + 1) == "";
      forall i, j | 0 <= i < j < |s| && s[i] == '[' ensures s[j] != ']' {
        assert start <= i;
      }
    }
  }

  /** The parse of crossed brackets is the parse of the empty text, which is
      no JSON text (section 2 of RFC 8259): the result is `None`. */
  lemma CrossedBracketsFail<J>(s: string, loads: string -> Option<J>)
    requires '[' in s && ']' in s && BracketsCrossed(s)
    requires loads("") == None
    ensures GenerateQuestions(s, loads) == None
  {
    CrossedBracketsGiveEmptyCandidate(s);
  }

  /** A reply missing a bracket yields `None` whatever the parser would say:
      the parser is never consulted. */
  lemma MissingBracketSkipsParse<J>(s: string, loads1: string -> Option<J>, loads2: string -> Option<J>)
    requires '[' !in s || ']' !in s
    ensures GenerateQuestions(s, loads1) == GenerateQuestions(s, loads2) == None
  {
  }

  /** A reply that is nothing but the array, as the prompt asks for, is
      handed to the parser whole. */
  lemma WholeReplyIsCandidate(s: string)
    requires |s| >= 2 && s[0] == '[' && s[|s| - 1] == ']'
    ensures ExtractJsonArray(s) == Candidate(s)
  {
    assert s[0] in s && s[|s| - 1] in s;
    var start, end := Find(s, '['), RFind(s, ']');
    BracketBounds(s);
    assert start == 0 && end == |s| - 1;
    assert Slice(s, start, end + 1) == s;
  }

  /** Extracting again from a non-empty candidate changes nothing. */
  lemma ExtractIdempotent(s: string)
    requires ExtractJsonArray(s).Candidate? && ExtractJsonArray(s).text != []
    ensures ExtractJsonArray(ExtractJsonArray(s).text) == ExtractJsonArray(s)
  {
    WholeReplyIsCandidate(ExtractJsonArray(s).text);
  }
}
