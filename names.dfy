/** The module name as the lookup compares it: the wide name field with every
    leading and trailing '\0' removed (`trim_matches('\0')`). Only the code
    unit 0 decodes to '\0', so the trimming is done on code units. */
module Names {
  import opened Win

  predicate AllNul(s: seq<u16>)
  {
    forall i :: 0 <= i < |s| ==> s[i] == NUL
  }

  /** Neither end of `t` is a NUL: nothing is left to trim. */
  predicate NoNulAtEnds(t: seq<u16>)
  {
    t == [] || (t[0] != NUL && t[|t| - 1] != NUL)
  }

  /** Removes the leading NULs. */
  function TrimStart(s: seq<u16>): (r: seq<u16>)
    decreases |s|
  {
    if s != [] && s[0] == NUL then TrimStart(s[1..]) else s
  }

  /** Removes the trailing NULs. */
  function TrimEnd(s: seq<u16>): (r: seq<u16>)
    decreases |s|
  {
    if s != [] && s[|s| - 1] == NUL then TrimEnd(s[..|s| - 1]) else s
  }

  /** What TrimStart leaves is a suffix of `s`, not starting with a NUL, and
      everything it removed is a NUL. */
  lemma {:induction false} TrimStartIsSuffix(s: seq<u16>)
    ensures |TrimStart(s)| <= |s| && TrimStart(s) == s[|s| - |TrimStart(s)|..]
    ensures AllNul(s[..|s| - |TrimStart(s)|])
    ensures TrimStart(s) == [] || TrimStart(s)[0] != NUL
    decreases |s|
  {
    if s != [] && s[0] == NUL {
      var u := s[1..];
      TrimStartIsSuffix(u);
      var r := TrimStart(u);
      assert TrimStart(s) == r;
      assert u[|u| - |r|..] == s[|s| - |r|..];
      assert s[..|s| - |r|] == [NUL] + u[..|u| - |r|];
    }
  }

  /** What TrimEnd leaves is a prefix of `s`, not ending with a NUL, and
      everything it removed is a NUL. */
  lemma {:induction false} TrimEndIsPrefix(s: seq<u16>)
    ensures |TrimEnd(s)| <= |s| && TrimEnd(s) == s[..|TrimEnd(s)|]
    ensures AllNul(s[|TrimEnd(s)|..])
    ensures TrimEnd(s) == [] || TrimEnd(s)[|TrimEnd(s)| - 1] != NUL
    decreases |s|
  {
    if s != [] && s[|s| - 1] == NUL {
      var u := s[..|s| - 1];
      TrimEndIsPrefix(u);
      var r := TrimEnd(u);
      assert TrimEnd(s) == r;
      assert u[..|r|] == s[..|r|];
      assert s[|r|..] == u[|r|..] + [NUL];
    }
  }

  /** `trim_matches('\0')`: what is left of `s` once all NULs at both ends
      are gone. */
  function TrimNul(s: seq<u16>): (r: seq<u16>)
    ensures |r| <= |s| && NoNulAtEnds(r)
  {
    TrimStartIsSuffix(s);
    var t := TrimStart(s);
    TrimEndIsPrefix(t);
    var r := TrimEnd(t);
    assert r != [] ==> r[0] == t[0];
    r
  }

  /** The trimmed name is a contiguous slice of the field: everything before
      and after it is a NUL, and the units in between, NULs included, are kept
      as they are. */
  lemma TrimNulIsInnerSlice(s: seq<u16>)
    ensures exists i :: 0 <= i <= |s| - |TrimNul(s)| && TrimNul(s) == s[i..i + |TrimNul(s)|]
                        && AllNul(s[..i]) && AllNul(s[i + |TrimNul(s)|..])
  {
    var t := TrimStart(s);
    TrimStartIsSuffix(s);
    var r := TrimEnd(t);
    TrimEndIsPrefix(t);
    var i := |s| - |t|;
    assert s[i..i + |r|] == t[..|r|];
    assert s[i + |r|..] == t[|r|..];
  }

  /** Leading NULs in front of a unit sequence that does not start with one
      are exactly what TrimStart removes. */
  lemma {:induction false} TrimStartOfPadded(p: seq<u16>, u: seq<u16>)
    requires AllNul(p) && (u == [] || u[0] != NUL)
    ensures TrimStart(p + u) == u
    decreases |p|
  {
    if p != [] {
      assert (p + u)[1..] == p[1..] + u;
      TrimStartOfPadded(p[1..], u);
    }
  }

  /** Trailing NULs behind a unit sequence that does not end with one are
      exactly what TrimEnd removes. */
  lemma {:induction false} TrimEndOfPadded(u: seq<u16>, q: seq<u16>)
    requires AllNul(q) && (u == [] || u[|u| - 1] != NUL)
    ensures TrimEnd(u + q) == u
    decreases |q|
  {
    if q != [] {
      assert (u + q)[..|u + q| - 1] == u + q[..|q| - 1];
      TrimEndOfPadded(u, q[..|q| - 1]);
    }
  }

  /** The trimmed name is determined by the layout of the field alone: however
      a name without NULs at its ends is padded with NULs on either side,
      trimming gives back exactly that name, interior NULs included. */
  lemma TrimNulOfPadded(p: seq<u16>, t: seq<u16>, q: seq<u16>)
    requires AllNul(p) && AllNul(q) && NoNulAtEnds(t)
    ensures TrimNul(p + t + q) == t
  {
    if t == [] {
      assert p + t + q == (p + q) + [];
      TrimStartOfPadded(p + q, []);
    } else {
      assert p + t + q == p + (t + q);
      TrimStartOfPadded(p, t + q);
      TrimEndOfPadded(t, q);
    }
  }

  /** In a field that does not start with a NUL, trimming keeps everything up
      to the last unit that is not a NUL. */
  lemma TrimNulKeepsUpToLastNonNul(s: seq<u16>, k: nat)
    requires k < |s| && s[0] != NUL && s[k] != NUL
    ensures k < |TrimNul(s)| && TrimNul(s) == s[..|TrimNul(s)|]
  {
    assert TrimStart(s) == s;
    TrimEndIsPrefix(s);
    var r := TrimEnd(s);
    forall j | |r| <= j < |s| ensures s[j] == NUL {
      assert s[|r|..][j - |r|] == s[j];
    }
  }

  /** The trimmed name is empty exactly when the field holds nothing but NULs. */
  lemma TrimNulEmptyIffAllNul(s: seq<u16>)
    ensures TrimNul(s) == [] <==> AllNul(s)
  {
    TrimStartIsSuffix(s);
    var t := TrimStart(s);
    if t != [] {
      // t starts with a unit of s that is not a NUL, and trimming its end keeps it
      assert t[0] == s[|s| - |t|];
      assert TrimStart(t) == t;
      TrimNulKeepsUpToLastNonNul(t, 0);
    } else {
      assert s[..|s|] == s;
    }
  }

  /** Trimming twice trims nothing more. */
  lemma TrimNulIdempotent(s: seq<u16>)
    ensures TrimNul(TrimNul(s)) == TrimNul(s)
  {
    var t := TrimNul(s);
    assert [] + t + [] == t;
    TrimNulOfPadded([], t, []);
  }
}
