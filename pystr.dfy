/** The few operations of Python's `str` type that the assistant uses, on
    `string` (a sequence of characters). Character classes are the ASCII ones:
    whitespace as `str.isspace` sees it below code 128, upper case A-Z. */
module PyStr {

  /** Python's `str.isspace` restricted to ASCII: space, tab, line feed,
      vertical tab, form feed, carriage return and the separators 0x1C-0x1F. */
  predicate IsSpace(c: char)
  {
    c == ' ' || (9 <= c as int <= 13) || (28 <= c as int <= 31)
  }

  /** `s.find(c)`: the index of the first `c` in `s`, or -1 when there is none. */
  function Find(s: string, c: char): (r: int)
    ensures -1 <= r < |s|
    ensures r == -1 <==> c !in s
    ensures 0 <= r ==> s[r] == c && c !in s[..r]
  {
    if |s| == 0 then -1
    else if s[0] == c then 0
    else
      var k := Find(s[1..], c);
      assert s[1..] == s[..|s|][1..];
      if k == -1 then -1
      else
        assert s[..k + 1] == [s[0]] + s[1..][..k];
        k + 1
  }

  /** `s.rfind(c)`: the index of the last `c` in `s`, or -1 when there is none. */
  function RFind(s: string, c: char): (r: int)
    ensures -1 <= r < |s|
    ensures r == -1 <==> c !in s
    ensures 0 <= r ==> s[r] == c && c !in s[r + 1..]
  {
    if |s| == 0 then -1
    else if s[|s| - 1] == c then |s| - 1
    else
      var k := RFind(s[..|s| - 1], c);
      assert s == s[..|s| - 1] + [s[|s| - 1]];
      assert 0 <= k ==> s[k + 1..] == s[..|s| - 1][k + 1..] + [s[|s| - 1]];
      k
  }

  /** How Python turns a slice bound into an index of a string of length `n`:
      a negative bound counts from the end, and both ends are clamped. */
  function SliceBound(i: int, n: nat): nat
  {
    if i < 0 then (if i + n < 0 then 0 else i + n)
    else if i > n then n
    else i
  }

  /** `s[start:stop]`: never fails; empty when the bounds cross. */
  function Slice(s: string, start: int, stop: int): (r: string)
    ensures var lo, hi := SliceBound(start, |s|), SliceBound(stop, |s|);
      |r| == (if lo < hi then hi - lo else 0) &&
      forall k :: 0 <= k < |r| ==> r[k] == s[lo + k]
  {
    var lo, hi := SliceBound(start, |s|), SliceBound(stop, |s|);
    if lo < hi then s[lo..hi] else ""
  }

  /** `s.lstrip()`: drops the longest all-whitespace prefix. */
  function LStrip(s: string): (r: string)
    ensures |r| <= |s| && r == s[|s| - |r|..]
    ensures forall k :: 0 <= k < |s| - |r| ==> IsSpace(s[k])
    ensures r == [] || !IsSpace(r[0])
  {
    if |s| > 0 && IsSpace(s[0]) then LStrip(s[1..]) else s
  }

  /** `s.rstrip()`: drops the longest all-whitespace suffix. */
  function RStrip(s: string): (r: string)
    ensures |r| <= |s| && r == s[..|r|]
    ensures forall k :: |r| <= k < |s| ==> IsSpace(s[k])
    ensures r == [] || !IsSpace(r[|r| - 1])
  {
    if |s| > 0 && IsSpace(s[|s| - 1]) then RStrip(s[..|s| - 1]) else s
  }

  /** A string that `strip` leaves alone: no whitespace at either end. */
  predicate Stripped(s: string)
  {
    s == [] || (!IsSpace(s[0]) && !IsSpace(s[|s| - 1]))
  }

  /** `s.strip()`: the part of `s` between its leading and its trailing
      whitespace, which is a contiguous piece of `s` starting at `lo`. */
  function Strip(s: string): (r: string)
    ensures Stripped(r)
    ensures var lo := |s| - |LStrip(s)|;
      lo + |r| <= |s| && r == s[lo..lo + |r|] &&
      (forall k :: 0 <= k < lo ==> IsSpace(s[k])) &&
      (forall k :: lo + |r| <= k < |s| ==> IsSpace(s[k]))
  {
    RStrip(LStrip(s))
  }

  /** Number of occurrences of `c` in `s`. */
  function Count(s: string, c: char): nat
  {
    if |s| == 0 then 0 else (if s[0] == c then 1 else 0) + Count(s[1..], c)
  }

  /** `s.split(d)` for a one-character separator: the pieces between the
      separators, always at least one (`"".split(",")` is `[""]`). */
  function Split(s: string, d: char): (r: seq<string>)
    ensures |r| == Count(s, d) + 1
    ensures forall p :: p in r ==> d !in p
  {
    if |s| == 0 then [""]
    else
      var rest := Split(s[1..], d);
      if s[0] == d then [""] + rest
      else [[s[0]] + rest[0]] + rest[1..]
  }

  /** `sep.join(ps)`: the pieces with `sep` between each neighbouring pair. */
  function Join(ps: seq<string>, sep: string): string
  {
    if |ps| == 0 then ""
    else if |ps| == 1 then ps[0]
    else ps[0] + sep + Join(ps[1..], sep)
  }

  /** Python's `str.lower` on one character, for the ASCII letters. */
  function LowerChar(c: char): char
  {
    if 'A' <= c <= 'Z' then (c as int + 32) as char else c
  }

  /** `s.lower()`: every ASCII capital replaced by its small letter. */
  function Lower(s: string): (r: string)
    ensures |r| == |s|
    ensures forall i :: 0 <= i < |s| ==> r[i] == LowerChar(s[i])
  {
    seq(|s|, i requires 0 <= i < |s| => LowerChar(s[i]))
  }

  /** `needle` sits in `hay` at index `i`. */
  predicate OccursAt(hay: string, needle: string, i: int)
  {
    0 <= i && i + |needle| <= |hay| && hay[i..i + |needle|] == needle
  }

  /** `needle in hay`, Python's substring test. */
  function Contains(hay: string, needle: string): (r: bool)
    ensures |needle| == 0 ==> r
    ensures r ==> |needle| <= |hay|
    decreases |hay|
  {
    if |needle| <= |hay| && hay[..|needle|] == needle then true
    else if |hay| == 0 then false
    else Contains(hay[1..], needle)
  }

  /** `s.replace(a, b)` for one-character `a` and `b`. */
  function ReplaceChar(s: string, a: char, b: char): (r: string)
    ensures |r| == |s|
    ensures forall i :: 0 <= i < |s| ==> r[i] == (if s[i] == a then b else s[i])
  {
    seq(|s|, i requires 0 <= i < |s| => if s[i] == a then b else s[i])
  }

  // ---------------------------------------------------------------------
  // Facts about the operations above

  /** `needle in hay` holds exactly when `needle` sits in `hay` at some index. */
  lemma {:induction false} ContainsIff(hay: string, needle: string)
    ensures Contains(hay, needle) <==> exists i :: OccursAt(hay, needle, i)
    decreases |hay|
  {
    if |needle| <= |hay| && hay[..|needle|] == needle {
      assert OccursAt(hay, needle, 0);
    } else if |hay| == 0 {
    } else {
      ContainsIff(hay[1..], needle);
      forall i | OccursAt(hay, needle, i) ensures OccursAt(hay[1..], needle, i - 1) {
        assert i != 0;
        assert hay[1..][i - 1..i - 1 + |needle|] == hay[i..i + |needle|];
      }
      forall i | OccursAt(hay[1..], needle, i) ensures OccursAt(hay, needle, i + 1) {
        assert hay[1..][i..i + |needle|] == hay[i + 1..i + 1 + |needle|];
      }
    }
  }

  /** An occurrence in the left operand of `+` is one in the whole. */
  lemma OccursInLeft(x: string, y: string, k: string, i: int)
    requires OccursAt(x, k, i)
    ensures OccursAt(x + y, k, i)
  {
    assert (x + y)[i..i + |k|] == x[i..i + |k|];
  }

  /** An occurrence in the right operand of `+` is one in the whole, shifted. */
  lemma OccursInRight(x: string, y: string, k: string, i: int)
    requires OccursAt(y, k, i)
    ensures OccursAt(x + y, k, |x| + i)
  {
    assert (x + y)[|x| + i..|x| + i + |k|] == y[i..i + |k|];
  }

  /** Being a substring is transitive. */
  lemma OccursTrans(a: string, b: string, c: string, i: int, j: int)
    requires OccursAt(a, b, i) && OccursAt(b, c, j)
    ensures OccursAt(a, c, i + j)
  {
    forall t | 0 <= t < |c| ensures a[i + j + t] == c[t] {
      assert c[t] == b[j + t];
      assert b[j + t] == a[i + (j + t)];
    }
    assert a[i + j..i + j + |c|] == c;
  }

  /** Every character under an occurrence belongs to the needle. */
  lemma CoveredCharInNeedle(s: string, k: string, i: int, p: int)
    requires OccursAt(s, k, i)
    ensures i <= p < i + |k| ==> s[p] in k
  {
    if i <= p < i + |k| {
      assert k[p - i] == s[p];
    }
  }

  /** An occurrence that does not contain the character `c` lies wholly on
      one side of a `c` standing between `x` and `y`. */
  lemma OccursBesideChar(x: string, c: char, y: string, k: string, i: int)
    requires OccursAt(x + [c] + y, k, i)
    requires c !in k
    ensures OccursAt(x, k, i) || OccursAt(y, k, i - |x| - 1)
  {
    var s := x + [c] + y;
    CoveredCharInNeedle(s, k, i, |x|);
    if i + |k| <= |x| {
      assert s[i..i + |k|] == x[i..i + |k|];
    } else if i >= |x| + 1 {
      var j := i - |x| - 1;
      forall t | 0 <= t < |k| ensures y[j + t] == k[t] {
        assert s[i..i + |k|][t] == s[i + t];
      }
      assert y[j..j + |k|] == k;
    }
  }

  /** A character missing from a string is missing from its substrings. */
  lemma OccursKeepsAbsent(s: string, k: string, i: int, c: char)
    requires OccursAt(s, k, i) && c !in s
    ensures c !in k
  {
    forall t | 0 <= t < |k| ensures k[t] != c {
      assert k[t] == s[i + t];
    }
  }

  /** Lowering commutes with concatenation. */
  lemma LowerConcat(a: string, b: string)
    ensures Lower(a + b) == Lower(a) + Lower(b)
  {
    assert forall i :: 0 <= i < |a + b| ==> Lower(a + b)[i] == (Lower(a) + Lower(b))[i];
  }

  /** Lowering keeps every occurrence in place. */
  lemma LowerOccurs(a: string, b: string, i: int)
    requires OccursAt(a, b, i)
    ensures OccursAt(Lower(a), Lower(b), i)
  {
    assert Lower(a)[i..i + |b|] == Lower(b);
  }

  /** Lowering twice is lowering once. */
  lemma LowerIdempotent(s: string)
    ensures Lower(Lower(s)) == Lower(s)
  {
  }

  /** A string without the separator splits into itself. */
  lemma {:induction false} SplitWithoutSeparator(p: string, d: char)
    requires d !in p
    ensures Split(p, d) == [p]
    decreases |p|
  {
    if |p| > 0 {
      SplitWithoutSeparator(p[1..], d);
      assert [p[0]] + p[1..] == p;
    }
  }

  /** Splitting a separator-free piece followed by the separator. */
  lemma {:induction false} SplitAfterPiece(p: string, t: string, d: char)
    requires d !in p
    ensures Split(p + [d] + t, d) == [p] + Split(t, d)
    decreases |p|
  {
    var s := p + [d] + t;
    if |p| == 0 {
      assert s[1..] == t;
    } else {
      assert s[1..] == p[1..] + [d] + t;
      SplitAfterPiece(p[1..], t, d);
      assert [p[0]] + p[1..] == p;
    }
  }

  /** Joining with `a` glued to the first piece. */
  lemma JoinGlueHead(a: string, ps: seq<string>, sep: string)
    requires |ps| >= 1
    ensures Join([a + ps[0]] + ps[1..], sep) == a + Join(ps, sep)
  {
    var qs := [a + ps[0]] + ps[1..];
    if |ps| > 1 {
      assert qs[1..] == ps[1..];
    }
  }

  /** `sep.join(ps)` of no pieces is `""`; otherwise it starts with the
      first piece and ends with the last. */
  lemma {:induction false} JoinBorders(ps: seq<string>, sep: string)
    ensures |ps| == 0 ==> Join(ps, sep) == ""
    ensures |ps| >= 1 ==> |Join(ps, sep)| >= |ps[0]| && Join(ps, sep)[..|ps[0]|] == ps[0]
    ensures |ps| >= 1 ==>
      |Join(ps, sep)| >= |ps[|ps| - 1]| &&
      Join(ps, sep)[|Join(ps, sep)| - |ps[|ps| - 1]|..] == ps[|ps| - 1]
    decreases |ps|
  {
    if |ps| >= 2 {
      var rest := Join(ps[1..], sep);
      JoinBorders(ps[1..], sep);
      var last := ps[|ps| - 1];
      assert ps[1..][|ps| - 2] == last;
      assert Join(ps, sep) == (ps[0] + sep) + rest;
      assert Join(ps, sep)[|Join(ps, sep)| - |last|..] == rest[|rest| - |last|..];
    }
  }

  /** Round trip one way: `d.join(s.split(d)) == s`. */
  lemma {:induction false} JoinSplit(s: string, d: char)
    ensures Join(Split(s, d), [d]) == s
    decreases |s|
  {
    if |s| > 0 {
      var rest := Split(s[1..], d);
      JoinSplit(s[1..], d);
      if s[0] == d {
        assert ([""] + rest)[1..] == rest;
      } else {
        JoinGlueHead([s[0]], rest, [d]);
      }
      assert [s[0]] + s[1..] == s;
    }
  }

  /** Round trip the other way: splitting a `d`-join of `d`-free pieces gives
      the pieces back. */
  lemma {:induction false} SplitJoin(ps: seq<string>, d: char)
    requires |ps| >= 1
    requires forall p :: p in ps ==> d !in p
    ensures Split(Join(ps, [d]), d) == ps
    decreases |ps|
  {
    if |ps| == 1 {
      SplitWithoutSeparator(ps[0], d);
    } else {
      SplitJoin(ps[1..], d);
      SplitAfterPiece(ps[0], Join(ps[1..], [d]), d);
      assert [ps[0]] + ps[1..] == ps;
    }
  }

  /** Every piece of a join occurs in the joined string. */
  lemma {:induction false} PieceOccursInJoin(ps: seq<string>, sep: string, n: nat)
    requires n < |ps|
    ensures exists i :: OccursAt(Join(ps, sep), ps[n], i)
    decreases |ps|
  {
    if |ps| == 1 {
      assert OccursAt(Join(ps, sep), ps[0], 0);
    } else if n == 0 {
      OccursInLeft(ps[0], sep + Join(ps[1..], sep), ps[0], 0);
      assert Join(ps, sep) == ps[0] + (sep + Join(ps[1..], sep));
      assert OccursAt(ps[0], ps[0], 0);
    } else {
      PieceOccursInJoin(ps[1..], sep, n - 1);
      assert ps[1..][n - 1] == ps[n];
      var i :| OccursAt(Join(ps[1..], sep), ps[n], i);
      OccursInRight(ps[0] + sep, Join(ps[1..], sep), ps[n], i);
      assert OccursAt(Join(ps, sep), ps[n], |ps[0] + sep| + i);
    }
  }

  /** `strip` leaves a stripped string alone. */
  lemma StripStripped(s: string)
    requires Stripped(s)
    ensures Strip(s) == s
  {
  }

  /** `(" " + p).strip() == p` for a stripped `p`. */
  lemma StripAfterSpace(p: string)
    requires Stripped(p)
    ensures Strip([' '] + p) == p
  {
    assert ([' '] + p)[1..] == p;
  }

  /** What `strip` returns is a piece of its input. */
  lemma StripOccurs(s: string)
    ensures OccursAt(s, Strip(s), |s| - |LStrip(s)|)
  {
    var r, lo := Strip(s), |s| - |LStrip(s)|;
    assert lo + |r| <= |s| && s[lo..lo + |r|] == r;
  }
}
