/** Character and string helpers: upper-casing of community-area names and
    the ", "-joined list that the invalid-area error message carries. */
module Text {

  predicate IsLowerAscii(c: char) {
    'a' <= c <= 'z'
  }

  /** `str.upper` on one character, restricted to ASCII: a lower-case letter
      becomes its capital, every other character is kept. */
  function UpperChar(c: char): (u: char)
    ensures !IsLowerAscii(u)
    ensures !IsLowerAscii(c) ==> u == c
    ensures IsLowerAscii(c) ==> u as int + 32 == c as int
  {
    if IsLowerAscii(c) then (c as int - 32) as char else c
  }

  /** `str.upper`, character by character. */
  function Upper(s: string): (r: string)
    ensures |r| == |s|
    ensures forall i :: 0 <= i < |s| ==> r[i] == UpperChar(s[i])
  {
    if s == [] then [] else [UpperChar(s[0])] + Upper(s[1..])
  }

  /** Upper-casing an upper-cased name changes nothing. */
  lemma UpperIdempotent(s: string)
    ensures Upper(Upper(s)) == Upper(s)
  {
  }

  /** The comprehension `[x.upper() for x in xs]`. */
  function UpperAll(xs: seq<string>): (r: seq<string>)
    ensures |r| == |xs|
    ensures forall i :: 0 <= i < |xs| ==> r[i] == Upper(xs[i])
  {
    if xs == [] then [] else [Upper(xs[0])] + UpperAll(xs[1..])
  }

  /** Re-upper-casing an already upper-cased list of names changes nothing. */
  lemma UpperAllIdempotent(xs: seq<string>)
    ensures UpperAll(UpperAll(xs)) == UpperAll(xs)
  {
    var u := UpperAll(xs);
    forall i | 0 <= i < |u|
      ensures UpperAll(u)[i] == u[i]
    {
      UpperIdempotent(xs[i]);
    }
  }

  /** `sep.join(xs)`: the items in order, with `sep` between neighbours only. */
  function Join(xs: seq<string>, sep: string): (r: string)
    ensures xs == [] ==> r == []
    ensures |xs| == 1 ==> r == xs[0]
    ensures |xs| >= 2 ==> |xs[0]| + |sep| <= |r| && r[..|xs[0]| + |sep|] == xs[0] + sep
  {
    if xs == [] then []
    else if |xs| == 1 then xs[0]
    else xs[0] + sep + Join(xs[1..], sep)
  }

  /** Where the i-th item starts inside `Join(xs, sep)`. */
  function JoinOffset(xs: seq<string>, sep: string, i: nat): nat
    requires i < |xs|
  {
    if i == 0 then 0 else |xs[0]| + |sep| + JoinOffset(xs[1..], sep, i - 1)
  }

  /** `sub` occurs in `s` starting at position `k`. */
  predicate OccursAt(s: string, sub: string, k: nat) {
    k + |sub| <= |s| && s[k..k + |sub|] == sub
  }

  lemma OccursAfterPrefix(p: string, s: string, sub: string, k: nat)
    requires OccursAt(s, sub, k)
    ensures OccursAt(p + s, sub, |p| + k)
  {
  }

  lemma OccursBeforeSuffix(s: string, t: string, sub: string, k: nat)
    requires OccursAt(s, sub, k)
    ensures OccursAt(s + t, sub, k)
  {
  }

  /** The separator sits right after every item but the last. */
  lemma {:induction false} JoinSeparatorAt(xs: seq<string>, sep: string, i: nat)
    requires i < |xs| - 1
    ensures OccursAt(Join(xs, sep), sep, JoinOffset(xs, sep, i) + |xs[i]|)
  {
    var rest := Join(xs[1..], sep);
    assert Join(xs, sep) == (xs[0] + sep) + rest;
    if i == 0 {
      assert Join(xs, sep)[|xs[0]|..|xs[0]| + |sep|] == sep;
    } else {
      JoinSeparatorAt(xs[1..], sep, i - 1);
      assert xs[1..][i - 1] == xs[i];
      OccursAfterPrefix(xs[0] + sep, rest, sep, JoinOffset(xs[1..], sep, i - 1) + |xs[i]|);
    }
  }

  /** The joined string ends where the last item ends. With `JoinContains` and
      `JoinSeparatorAt` this fixes every character of `Join(xs, sep)`. */
  lemma {:induction false} JoinLength(xs: seq<string>, sep: string)
    requires xs != []
    ensures |Join(xs, sep)| == JoinOffset(xs, sep, |xs| - 1) + |xs[|xs| - 1]|
  {
    if |xs| >= 2 {
      JoinLength(xs[1..], sep);
      assert xs[1..][|xs| - 2] == xs[|xs| - 1];
    }
  }

  /** Every item of a joined list appears, whole, in the joined string. */
  lemma {:induction false} JoinContains(xs: seq<string>, sep: string, i: nat)
    requires i < |xs|
    ensures OccursAt(Join(xs, sep), xs[i], JoinOffset(xs, sep, i))
  {
    if |xs| == 1 {
      assert Join(xs, sep)[0..|xs[0]|] == xs[0];
    } else if i == 0 {
      assert Join(xs, sep) == xs[0] + (sep + Join(xs[1..], sep));
      assert OccursAt(xs[0], xs[0], 0);
      OccursBeforeSuffix(xs[0], sep + Join(xs[1..], sep), xs[0], 0);
    } else {
      JoinContains(xs[1..], sep, i - 1);
      assert xs[1..][i - 1] == xs[i];
      assert Join(xs, sep) == (xs[0] + sep) + Join(xs[1..], sep);
      OccursAfterPrefix(xs[0] + sep, Join(xs[1..], sep), xs[i], JoinOffset(xs[1..], sep, i - 1));
    }
  }
}
