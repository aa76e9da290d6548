/** The tidying of the comma-separated tech stack before it goes into the
    prompt: `", ".join([tech.strip() for tech in tech_stack.split(',')])`. */
module TechStack {
  import opened PyStr

  /** The list comprehension `[tech.strip() for tech in pieces]`. */
  function StripAll(pieces: seq<string>): (r: seq<string>)
    ensures |r| == |pieces|
    ensures forall i :: 0 <= i < |pieces| ==> r[i] == Strip(pieces[i]) && Stripped(r[i])
  {
    seq(|pieces|, i requires 0 <= i < |pieces| => Strip(pieces[i]))
  }

  /** The normalised tech list handed to the question generator. */
  function NormalizeTechList(techStack: string): (r: string)
    ensures Count(r, ',') == Count(techStack, ',')
    ensures StripAll(Split(r, ',')) == StripAll(Split(techStack, ','))
  {
    var names := StripAll(Split(techStack, ','));
    StrippedPiecesAreClean(techStack);
    CleanNamesResplit(names);
    Join(names, ", ")
  }

  /** The stripped pieces of a comma split: no whitespace at either end and
      no comma inside. */
  predicate CleanNames(names: seq<string>)
  {
    |names| >= 1 && forall p :: p in names ==> Stripped(p) && ',' !in p
  }

  /** What a comma split sees in a `", "`-join: the first name as it is,
      every later one behind the blank that followed its comma. */
  function Spaced(names: seq<string>): (r: seq<string>)
    requires |names| >= 1
    ensures |r| == |names| && r[0] == names[0]
    ensures forall i :: 1 <= i < |names| ==> r[i] == [' '] + names[i]
  {
    seq(|names|, i requires 0 <= i < |names| => if i == 0 then names[0] else [' '] + names[i])
  }

  // ---------------------------------------------------------------------
  // Facts about the normalisation

  /** Joining with `", "` is joining the blank-prefixed names with `","`. */
  lemma {:induction false} JoinCommaSpace(names: seq<string>)
    requires |names| >= 1
    ensures Join(names, ", ") == Join(Spaced(names), [','])
    decreases |names|
  {
    if |names| > 1 {
      var tail := names[1..];
      JoinCommaSpace(tail);
      var sp := Spaced(tail);
      assert Spaced(names)[1..] == [[' '] + sp[0]] + sp[1..];
      JoinGlueHead([' '], sp, [',']);
    }
  }

  /** Re-splitting a normalised list on commas gives the blank-prefixed
      names. */
  lemma ResplitIsSpaced(names: seq<string>)
    requires CleanNames(names)
    ensures Split(Join(names, ", "), ',') == Spaced(names)
  {
    JoinCommaSpace(names);
    var sp := Spaced(names);
    forall p | p in sp ensures ',' !in p {
      var i :| 0 <= i < |sp| && sp[i] == p;
      assert names[i] in names;
      assert i > 0 ==> p == [' '] + names[i];
    }
    SplitJoin(sp, ',');
  }

  /** Stripping the blank-prefixed names gives the names back. */
  lemma StripSpacedNames(names: seq<string>)
    requires CleanNames(names)
    ensures StripAll(Spaced(names)) == names
  {
    var sp := Spaced(names);
    var back := StripAll(sp);
    forall i | 0 <= i < |names| ensures back[i] == names[i] {
      StripSpacedName(names, i);
    }
    SameElements(back, names);
  }

  /** Sequences that agree at every index are equal. */
  lemma SameElements(a: seq<string>, b: seq<string>)
    requires |a| == |b| && forall i :: 0 <= i < |a| ==> a[i] == b[i]
    ensures a == b
  {
  }

  /** One name of `Spaced(names)`, stripped. */
  lemma StripSpacedName(names: seq<string>, i: int)
    requires CleanNames(names) && 0 <= i < |names|
    ensures Strip(Spaced(names)[i]) == names[i]
  {
    assert names[i] in names;
    if i == 0 {
      StripStripped(names[0]);
    } else {
      StripAfterSpace(names[i]);
    }
  }

  /** Both halves together. */
  lemma CleanNamesResplit(names: seq<string>)
    requires CleanNames(names)
    ensures Split(Join(names, ", "), ',') == Spaced(names)
    ensures StripAll(Spaced(names)) == names
  {
    ResplitIsSpaced(names);
    StripSpacedNames(names);
  }

  /** The stripped comma pieces of any input are clean names. */
  lemma StrippedPiecesAreClean(techStack: string)
    ensures CleanNames(StripAll(Split(techStack, ',')))
  {
    var pieces := Split(techStack, ',');
    var names := StripAll(pieces);
    forall i | 0 <= i < |names| ensures ',' !in names[i] {
      assert pieces[i] in pieces;
      StripOccurs(pieces[i]);
      OccursKeepsAbsent(pieces[i], names[i], |pieces[i]| - |LStrip(pieces[i])|, ',');
    }
  }

  /** The number of names, and so the number of commas, is unchanged. */
  lemma NormalizeKeepsNameCount(techStack: string)
    ensures |Split(NormalizeTechList(techStack), ',')| == |Split(techStack, ',')|
  {
  }

  /** The output is exactly the comma pieces of the input, stripped, joined
      with `", "`; splitting it again recovers those stripped pieces. */
  lemma NormalizeResplits(techStack: string)
    ensures var names := StripAll(Split(techStack, ','));
      NormalizeTechList(techStack) == Join(names, ", ") &&
      Split(NormalizeTechList(techStack), ',') == Spaced(names)
  {
    StrippedPiecesAreClean(techStack);
    CleanNamesResplit(StripAll(Split(techStack, ',')));
  }

  /** Normalising a normalised list changes nothing. */
  lemma NormalizeIdempotent(techStack: string)
    ensures NormalizeTechList(NormalizeTechList(techStack)) == NormalizeTechList(techStack)
  {
  }
}
