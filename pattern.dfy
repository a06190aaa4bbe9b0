/**
 * The pattern compiler: every kind's pattern wrapped in its own capturing group,
 * the groups joined by `|` in kind order, written into a character buffer
 * whose last cell holds the terminating NUL.
 */
module Pattern {
  /** A kind's pattern as one capturing group. */
  function Group(p: string): string {
    "(" + p + ")"
  }

  /** The total length of all patterns. */
  function SumLengths(ps: seq<string>): nat {
    if ps == [] then 0 else SumLengths(ps[..|ps| - 1]) + |ps[|ps| - 1]|
  }

  /** Buffer size: an open paren, a close paren and a delimiter per kind, plus the patterns. */
  function BufferLength(ps: seq<string>): nat {
    3 * |ps| + SumLengths(ps)
  }

  /** What the writer has produced after the given patterns: each group followed by `|`. */
  function Framed(ps: seq<string>): string {
    if ps == [] then [] else Framed(ps[..|ps| - 1]) + Group(ps[|ps| - 1]) + "|"
  }

  /** The alternation `(p1)|(p2)|...|(pN)`. */
  function Join(ps: seq<string>): string
    requires |ps| >= 1
  {
    if |ps| == 1 then Group(ps[0]) else Join(ps[..|ps| - 1]) + "|" + Group(ps[|ps| - 1])
  }

  /** The precomputed buffer size is exactly what the writer fills. */
  lemma {:induction false} FramedLength(ps: seq<string>)
    ensures |Framed(ps)| == BufferLength(ps)
  {
    if ps != [] {
      FramedLength(ps[..|ps| - 1]);
    }
  }

  /** The filled buffer is the alternation followed by one trailing delimiter. */
  lemma {:induction false} FramedIsJoinThenBar(ps: seq<string>)
    requires |ps| >= 1
    ensures Framed(ps) == Join(ps) + "|"
  {
    var init := ps[..|ps| - 1];
    if |ps| == 1 {
      assert init == [];
    } else {
      FramedIsJoinThenBar(init);
    }
  }

  /** What is written for the first `k` kinds is a prefix of what is written for all of them. */
  lemma {:induction false} FramedPrefix(ps: seq<string>, k: nat)
    requires k <= |ps|
    ensures Framed(ps[..k]) <= Framed(ps)
  {
    if k < |ps| {
      var init := ps[..|ps| - 1];
      FramedPrefix(init, k);
      assert init[..k] == ps[..k];
    } else {
      assert ps[..k] == ps;
    }
  }

  /** Writing one more kind appends its group and a delimiter. */
  lemma FramedStep(ps: seq<string>, k: nat)
    requires k < |ps|
    ensures Framed(ps[..k + 1]) == Framed(ps[..k]) + Group(ps[k]) + "|"
  {
    assert ps[..k + 1][..k] == ps[..k];
  }

  /**
   * Group `k + 1` of the combined pattern is kind `k`'s pattern: it starts at offset
   * `3k + |p_0| + ... + |p_(k-1)|` of the buffer and is followed by a delimiter.
   */
  lemma GroupAt(ps: seq<string>, k: nat)
    requires k < |ps|
    ensures BufferLength(ps[..k]) + |ps[k]| + 3 <= |Framed(ps)|
    ensures Framed(ps)[BufferLength(ps[..k]) .. BufferLength(ps[..k]) + |ps[k]| + 3] == Group(ps[k]) + "|"
  {
    FramedStep(ps, k);
    FramedPrefix(ps, k + 1);
    FramedLength(ps[..k]);
    var o := BufferLength(ps[..k]);
    assert Framed(ps)[..o + |ps[k]| + 3] == Framed(ps[..k + 1]);
  }

  /** The `append` step: writes `(p)|` at index `i` and returns the index after it. */
  method Append(arr: array<char>, i: nat, p: string) returns (next: nat)
    requires i + |p| + 3 <= arr.Length
    modifies arr
    ensures next == i + |p| + 3
    ensures arr[..next] == old(arr[..i]) + Group(p) + "|"
    ensures arr[next..] == old(arr[next..])
  {
    next := i;
    arr[next] := '(';
    next := next + 1;
    for j := 0 to |p|
      invariant next == i + 1 + j
      invariant arr[..next] == old(arr[..i]) + "(" + p[..j]
      invariant forall q | next <= q < arr.Length :: arr[q] == old(arr[q])
    {
      arr[next] := p[j];
      next := next + 1;
      assert p[..j + 1] == p[..j] + [p[j]];
    }
    assert p[..|p|] == p;
    arr[next] := ')';
    next := next + 1;
    arr[next] := '|';
    next := next + 1;
  }

  /**
   * Builds the combined pattern for the patterns of all kinds, in kind order:
   * the buffer has room for every group and delimiter, holds the alternation of the
   * groups, and its last cell (where the final delimiter was) is the NUL terminator.
   */
  method MakePattern(ps: seq<string>) returns (arr: array<char>)
    requires |ps| >= 1
    ensures fresh(arr)
    ensures arr.Length == BufferLength(ps)
    ensures arr[..arr.Length - 1] == Join(ps)
    ensures arr[arr.Length - 1] == '\0'
  {
    var len := BufferLength(ps);
    arr := new char[len](_ => '\0');
    FramedLength(ps);
    var i := 0;
    var k := 0;
    while k < |ps|
      invariant k <= |ps|
      invariant arr.Length == len == |Framed(ps)|
      invariant i == |Framed(ps[..k])| <= len
      invariant arr[..i] == Framed(ps[..k])
    {
      FramedStep(ps, k);
      FramedPrefix(ps, k + 1);
      i := Append(arr, i, ps[k]);
      k := k + 1;
    }
    assert ps[..k] == ps;
    FramedIsJoinThenBar(ps);
    assert arr[..len - 1] == Join(ps);
    arr[len - 1] := '\0';
    assert arr[..len - 1] == Join(ps);
  }
}
