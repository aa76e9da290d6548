/** The form's exit test:
    `any(keyword in tech_stack.lower() for keyword in exit_keywords)`.
    The test is a plain substring search, so a keyword inside a longer word
    counts too. */
module ExitCheck {
  import opened PyStr
  import opened TechStack

  /** The five words that end the conversation. */
  const ExitKeywords: seq<string> := ["exit", "quit", "end", "stop", "bye"]

  /** `any(keyword in text for keyword in keywords)`. */
  function AnyKeywordIn(keywords: seq<string>, text: string): (r: bool)
    ensures r <==> exists k :: k in keywords && Contains(text, k)
  {
    if |keywords| == 0 then false
    else
      var later := AnyKeywordIn(keywords[1..], text);
      if Contains(text, keywords[0]) then
        assert keywords[0] in keywords;
        true
      else
        assert forall k :: k in keywords <==> k == keywords[0] || k in keywords[1..] by {
          assert keywords == [keywords[0]] + keywords[1..];
        }
        later
  }

  /** Whether the tech-stack field asks to leave. */
  function IsExitRequest(techStack: string): (r: bool)
    ensures r <==> exists k, i :: k in ExitKeywords && OccursAt(Lower(techStack), k, i)
  {
    var text := Lower(techStack);
    forall k | k in ExitKeywords ensures Contains(text, k) <==> exists i :: OccursAt(text, k, i) {
      ContainsIff(text, k);
    }
    AnyKeywordIn(ExitKeywords, text)
  }

  // ---------------------------------------------------------------------
  // Facts about the exit test

  /** `"Backend"` lowers to `"backend"`, which contains `"end"`: a candidate
      whose stack names a backend is taken to be saying goodbye. */
  lemma BackendMeansExit()
    ensures IsExitRequest("Backend")
    ensures IsExitRequest("Frontend")
    ensures IsExitRequest("Python, Django, Backend")
  {
    assert Lower("Backend")[4..7] == "end";
    assert OccursAt(Lower("Backend"), ExitKeywords[2], 4);
    assert Lower("Frontend")[5..8] == "end";
    assert OccursAt(Lower("Frontend"), ExitKeywords[2], 5);
    assert Lower("Python, Django, Backend")[20..23] == "end";
    assert OccursAt(Lower("Python, Django, Backend"), ExitKeywords[2], 20);
  }

  /** Every keyword holds a `t` or an `e`, so a stack with neither letter
      (in either case) never asks to leave. */
  lemma NoTOrEMeansStay(techStack: string)
    requires 't' !in Lower(techStack) && 'e' !in Lower(techStack)
    ensures !IsExitRequest(techStack)
  {
    var text := Lower(techStack);
    forall k, i | k in ExitKeywords && OccursAt(text, k, i) ensures false {
      assert 't' in k || 'e' in k;
      OccursKeepsAbsent(text, k, i, 't');
      OccursKeepsAbsent(text, k, i, 'e');
    }
  }

  /** A stack of ordinary names passes the test. */
  lemma DjangoStackStays()
    ensures !IsExitRequest("Django, Kafka, Ruby")
  {
    var text := Lower("Django, Kafka, Ruby");
    assert text == "django, kafka, ruby";
    NoTOrEMeansStay("Django, Kafka, Ruby");
  }

  /** The test ignores letter case. */
  lemma ExitIgnoresCase(techStack: string)
    ensures IsExitRequest(Lower(techStack)) == IsExitRequest(techStack)
  {
    LowerIdempotent(techStack);
  }

  /** Adding text around a stack that asks to leave still asks to leave. */
  lemma ExitSurvivesContext(before: string, techStack: string, after: string)
    requires IsExitRequest(techStack)
    ensures IsExitRequest(before + techStack + after)
  {
    var k, i :| k in ExitKeywords && OccursAt(Lower(techStack), k, i);
    LowerConcat(before, techStack);
    LowerConcat(before + techStack, after);
    OccursInRight(Lower(before), Lower(techStack), k, i);
    OccursInLeft(Lower(before) + Lower(techStack), Lower(after), k, |Lower(before)| + i);
  }

  /** The keywords are written in small letters, so each of them, typed in
      any mix of cases, asks to leave. */
  lemma AnyCasingOfKeywordExits(word: string)
    requires Lower(word) in ExitKeywords
    ensures IsExitRequest(word)
    ensures forall k :: k in ExitKeywords ==> Lower(k) == k
  {
    assert OccursAt(Lower(word), Lower(word), 0);
    forall k | k in ExitKeywords ensures Lower(k) == k {
      LowerIdempotent(k);
    }
  }

  /** No keyword holds a comma or a blank. */
  lemma KeywordsHaveNoSeparators(k: string)
    requires k in ExitKeywords
    ensures ',' !in k && ' ' !in k
  {
  }

  /** A separator-free needle found in a `", "`-join of names is found in
      one of the names. */
  lemma {:induction false} OccursInJoinedName(names: seq<string>, k: string, i: int)
    requires |names| >= 1
    requires ',' !in k && ' ' !in k
    requires OccursAt(Lower(Join(names, ", ")), k, i)
    ensures exists n, j :: 0 <= n < |names| && OccursAt(Lower(names[n]), k, j)
    decreases |names|
  {
    if |names| == 1 {
      assert OccursAt(Lower(names[0]), k, i);
    } else if |k| == 0 {
      assert OccursAt(Lower(names[0]), k, 0);
    } else {
      var rest := Join(names[1..], ", ");
      assert Join(names, ", ") == names[0] + [','] + ([' '] + rest);
      LowerConcat(names[0] + [','], [' '] + rest);
      LowerConcat(names[0], [',']);
      LowerConcat([' '], rest);
      assert Lower([',']) == [','] && Lower([' ']) == [' '];
      OccursBesideChar(Lower(names[0]), ',', [' '] + Lower(rest), k, i);
      if OccursAt(Lower(names[0]), k, i) {
      } else {
        var i' := i - |Lower(names[0])| - 1;
        assert [' '] + Lower(rest) == [] + [' '] + Lower(rest);
        OccursBesideChar([], ' ', Lower(rest), k, i');
        OccursInJoinedName(names[1..], k, i' - 1);
        var n, j :| 0 <= n < |names| - 1 && OccursAt(Lower(names[1..][n]), k, j);
        assert names[1..][n] == names[n + 1];
      }
    }
  }

  /** Each comma piece of a string occurs in it. */
  lemma SplitPieceOccurs(s: string, n: int)
    requires 0 <= n < |Split(s, ',')|
    ensures exists at :: OccursAt(s, Split(s, ',')[n], at)
  {
    JoinSplit(s, ',');
    PieceOccursInJoin(Split(s, ','), [','], n);
  }

  /** A needle in a stripped, lowered piece is in the lowered piece. */
  lemma KeywordInStrippedPiece(piece: string, k: string, j: int)
    requires OccursAt(Lower(Strip(piece)), k, j)
    ensures exists j' :: OccursAt(Lower(piece), k, j')
  {
    StripOccurs(piece);
    var lo := |piece| - |LStrip(piece)|;
    LowerOccurs(piece, Strip(piece), lo);
    OccursTrans(Lower(piece), Lower(Strip(piece)), k, lo, j);
  }

  /** A keyword in a stripped comma piece of the stack is a keyword in the
      stack itself. */
  lemma PieceKeywordInStack(techStack: string, n: int, k: string, j: int)
    requires 0 <= n < |Split(techStack, ',')|
    requires OccursAt(Lower(StripAll(Split(techStack, ','))[n]), k, j)
    ensures exists i :: OccursAt(Lower(techStack), k, i)
  {
    var piece := Split(techStack, ',')[n];
    KeywordInStrippedPiece(piece, k, j);
    var j' :| OccursAt(Lower(piece), k, j');
    SplitPieceOccurs(techStack, n);
    var at :| OccursAt(techStack, piece, at);
    LowerOccurs(techStack, piece, at);
    OccursTrans(Lower(techStack), Lower(piece), k, at, j');
  }

  /** Normalising cannot create an exit keyword: a stack that passed the
      exit test yields a tech list that would pass it too. */
  lemma NormalizedStackStaysClear(techStack: string)
    requires !IsExitRequest(techStack)
    ensures !IsExitRequest(NormalizeTechList(techStack))
  {
    if IsExitRequest(NormalizeTechList(techStack)) {
      var k, i :| k in ExitKeywords && OccursAt(Lower(NormalizeTechList(techStack)), k, i);
      KeywordsHaveNoSeparators(k);
      NormalizeResplits(techStack);
      var names := StripAll(Split(techStack, ','));
      OccursInJoinedName(names, k, i);
      var n, j :| 0 <= n < |names| && OccursAt(Lower(names[n]), k, j);
      PieceKeywordInStack(techStack, n, k, j);
      assert false;
    }
  }
}
