/**
  JavaScript's String.prototype.trim, which both scripts apply to the two
  fields of the add-quote form before validating them.

  trim removes every leading and trailing code point that ECMAScript
  classifies as WhiteSpace or LineTerminator (sections 12.2 and 12.3 of
  ECMA-262); WhiteSpace includes every code point of Unicode's general
  category Zs.
 */
module JsText {

  /** The code points trim strips: TAB, LF, VT, FF, CR, SPACE, NBSP, ZWNBSP,
      LINE SEPARATOR, PARAGRAPH SEPARATOR and the rest of category Zs. */
  predicate IsTrimmable(c: char) {
    var n := c as int;
    || n == 0x09 || n == 0x0A || n == 0x0B || n == 0x0C || n == 0x0D
    || n == 0x20 || n == 0xA0 || n == 0x1680
    || (0x2000 <= n <= 0x200A)
    || n == 0x2028 || n == 0x2029 || n == 0x202F || n == 0x205F
    || n == 0x3000 || n == 0xFEFF
  }

  predicate AllTrimmable(s: string) {
    forall k :: 0 <= k < |s| ==> IsTrimmable(s[k])
  }

  /** Drops the leading trimmable code points. */
  function TrimStart(s: string): (r: string)
    ensures |r| <= |s| && r == s[|s| - |r|..]
    ensures AllTrimmable(s[..|s| - |r|])
    ensures r != [] ==> !IsTrimmable(r[0])
  {
    if s != [] && IsTrimmable(s[0]) then TrimStart(s[1..]) else s
  }

  /** Drops the trailing trimmable code points. */
  function TrimEnd(s: string): (r: string)
    ensures |r| <= |s| && r == s[..|r|]
    ensures AllTrimmable(s[|r|..])
    ensures r != [] ==> !IsTrimmable(r[|r| - 1])
  {
    if s != [] && IsTrimmable(s[|s| - 1]) then TrimEnd(s[..|s| - 1]) else s
  }

  /** The result neither starts nor ends with a trimmable code point. */
  function Trim(s: string): (r: string)
    ensures |r| <= |s|
    ensures r != [] ==> !IsTrimmable(r[0]) && !IsTrimmable(r[|r| - 1])
  {
    var u := TrimStart(s);
    var r := TrimEnd(u);
    assert r != [] ==> r[0] == u[0];
    r
  }

  /** s[i..j] is what is left once only trimmable code points are cut off
      on either side, and it neither starts nor ends with one. */
  ghost predicate TrimmedAt(s: string, i: int, j: int) {
    && 0 <= i <= j <= |s|
    && AllTrimmable(s[..i])
    && AllTrimmable(s[j..])
    && (i < j ==> !IsTrimmable(s[i]) && !IsTrimmable(s[j - 1]))
  }

  /** r is what trim leaves of s. */
  ghost predicate IsTrimOf(r: string, s: string) {
    exists i, j :: TrimmedAt(s, i, j) && r == s[i..j]
  }

  lemma TrimIsTrimOf(s: string)
    ensures IsTrimOf(Trim(s), s)
  {
    var i, j := TrimCuts(s);
  }

  /** Where Trim cuts s. */
  lemma TrimCuts(s: string) returns (i: int, j: int)
    ensures TrimmedAt(s, i, j) && Trim(s) == s[i..j]
  {
    var t := TrimStart(s);
    var r := TrimEnd(t);
    i := |s| - |t|;
    j := i + |r|;
    assert Trim(s) == r;
    CutsAt(s, t, r);
  }

  /** Cutting a trimmable prefix off s, leaving t, and then a trimmable
      suffix off t, leaving r, cuts s at |s| - |t| and |s| - |t| + |r|. */
  lemma CutsAt(s: string, t: string, r: string)
    requires |t| <= |s| && t == s[|s| - |t|..] && AllTrimmable(s[..|s| - |t|])
    requires t != [] ==> !IsTrimmable(t[0])
    requires |r| <= |t| && r == t[..|r|] && AllTrimmable(t[|r|..])
    requires r != [] ==> !IsTrimmable(r[|r| - 1])
    ensures TrimmedAt(s, |s| - |t|, |s| - |t| + |r|)
    ensures r == s[|s| - |t|..|s| - |t| + |r|]
  {
    var i := |s| - |t|;
    var j := i + |r|;
    SliceOfSlice(s, i, |r|);
    assert r == s[i..j];
    assert s[j..] == t[|r|..];
    if r != [] {
      assert s[i] == r[0] == t[0];
      assert s[j - 1] == r[|r| - 1];
    }
  }

  lemma SliceOfSlice(s: string, i: nat, n: nat)
    requires i + n <= |s|
    ensures s[i..][..n] == s[i..i + n]
    ensures s[i..][n..] == s[i + n..]
  {
  }

  /** IsTrimOf pins its first argument down: trim has exactly one possible
      result, so IsTrimOf is a complete specification of Trim. */
  lemma TrimOfUnique(r1: string, r2: string, s: string)
    requires IsTrimOf(r1, s) && IsTrimOf(r2, s)
    ensures r1 == r2
  {
    var i1, j1 :| TrimmedAt(s, i1, j1) && r1 == s[i1..j1];
    var i2, j2 :| TrimmedAt(s, i2, j2) && r2 == s[i2..j2];
    EveryCutTrimmable(s, i1, j1);
    EveryCutTrimmable(s, i2, j2);
    if i1 == j1 || i2 == j2 {
      assert AllTrimmable(s);
    }
  }

  /** Spells out, position by position, what TrimmedAt says of the two pieces
      cut off. */
  lemma EveryCutTrimmable(s: string, i: int, j: int)
    requires TrimmedAt(s, i, j)
    ensures forall k :: 0 <= k < i ==> IsTrimmable(s[k])
    ensures forall k :: j <= k < |s| ==> IsTrimmable(s[k])
    ensures i == j ==> AllTrimmable(s)
  {
    forall k | 0 <= k < i ensures IsTrimmable(s[k]) {
      assert s[..i][k] == s[k];
    }
    forall k | j <= k < |s| ensures IsTrimmable(s[k]) {
      assert s[j..][k - j] == s[k];
    }
  }

  /** trim yields the empty string exactly when every code point is
      trimmable; this is the test both add forms apply. */
  lemma TrimEmptyIff(s: string)
    ensures Trim(s) == [] <==> AllTrimmable(s)
  {
    var i, j := TrimCuts(s);
    EveryCutTrimmable(s, i, j);
  }

  /** Trimming an already trimmed string changes nothing. */
  lemma TrimIdempotent(s: string)
    ensures Trim(Trim(s)) == Trim(s)
  {
    var t := Trim(s);
    assert TrimStart(t) == t;
    assert TrimEnd(t) == t;
  }
}
