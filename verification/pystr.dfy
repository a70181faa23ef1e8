/** The pieces of Python string behaviour the chat handler relies on. */
module PyStr {

  /** The code points Python's `str.isspace` accepts: the characters
      `str.strip()` removes when called without arguments. */
  const SpaceCodePoints: set<int> :=
    {0x09, 0x0A, 0x0B, 0x0C, 0x0D, 0x1C, 0x1D, 0x1E, 0x1F, 0x20, 0x85, 0xA0, 0x1680,
     0x2000, 0x2001, 0x2002, 0x2003, 0x2004, 0x2005, 0x2006, 0x2007, 0x2008, 0x2009, 0x200A,
     0x2028, 0x2029, 0x202F, 0x205F, 0x3000}

  predicate IsSpace(c: char) {
    c as int in SpaceCodePoints
  }

  predicate AllSpace(s: string) {
    forall i | 0 <= i < |s| :: IsSpace(s[i])
  }

  /** How many whitespace characters `s` starts with. */
  function Leading(s: string): (n: nat)
    ensures n <= |s|
    ensures forall k | 0 <= k < n :: IsSpace(s[k])
    ensures n < |s| ==> !IsSpace(s[n])
    decreases |s|
  {
    if |s| > 0 && IsSpace(s[0]) then 1 + Leading(s[1..]) else 0
  }

  /** How many whitespace characters `s` ends with. */
  function Trailing(s: string): (n: nat)
    ensures n <= |s|
    ensures forall k | |s| - n <= k < |s| :: IsSpace(s[k])
    ensures n < |s| ==> !IsSpace(s[|s| - 1 - n])
    decreases |s|
  {
    if |s| > 0 && IsSpace(s[|s| - 1]) then 1 + Trailing(s[..|s| - 1]) else 0
  }

  /** `s.strip()`: whitespace dropped at both ends. */
  function Strip(s: string): (r: string)
    ensures Leading(s) + |r| <= |s|
    ensures r == s[Leading(s)..Leading(s) + |r|]
  {
    var t := s[Leading(s)..];
    t[..|t| - Trailing(t)]
  }

  /** What `strip` leaves is the middle of `s` between two all-whitespace
      ends, the first being the leading whitespace. */
  lemma StripSpec(s: string)
    ensures var r := Strip(s);
            var lo := Leading(s);
            && lo + |r| <= |s|
            && r == s[lo..lo + |r|]
            && (forall k | 0 <= k < lo :: IsSpace(s[k]))
            && (forall k | lo + |r| <= k < |s| :: IsSpace(s[k]))
  {
    var lo := Leading(s);
    var t := s[lo..];
    var n := Trailing(t);
    var r := t[..|t| - n];
    assert r == s[lo..lo + |r|];
    forall k | lo + |r| <= k < |s|
      ensures IsSpace(s[k])
    {
      assert s[k] == t[k - lo];
    }
  }

  /** What `strip` leaves neither starts nor ends with whitespace. */
  lemma StripEnds(s: string)
    ensures var r := Strip(s);
            r != [] ==> !IsSpace(r[0]) && !IsSpace(r[|r| - 1])
  {
    var lo := Leading(s);
    var t := s[lo..];
    var n := Trailing(t);
    var r := t[..|t| - n];
    if r != [] {
      assert r[0] == t[0] == s[lo];
      assert r[|r| - 1] == t[|t| - 1 - n];
    }
  }

  /** `strip` leaves nothing exactly when `s` is all whitespace. */
  lemma StripEmpty(s: string)
    ensures Strip(s) == [] <==> AllSpace(s)
  {
    StripSpec(s);
    StripEnds(s);
    if Leading(s) < |s| {
      assert !IsSpace(s[Leading(s)]);
      assert Strip(s) != [] by {
        var t := s[Leading(s)..];
        assert !IsSpace(t[0]);
      }
    }
  }

  /** Sanity check on the definition, not a behaviour of the handler:
      stripping twice changes nothing more. */
  lemma StripIdempotent(s: string)
    ensures Strip(Strip(s)) == Strip(s)
  {
    StripEnds(s);
    var r := Strip(s);
    if r != [] {
      assert Leading(r) == 0;
      assert r[0..] == r;
      assert Trailing(r) == 0;
    }
  }
}
