/** The string operations the source applies to names and keys:
    `replace(/\s/g, "")`, `toLowerCase()`, `toUpperCase()`, and the
    '|'-separated layout of an invite-code entry.  Case mapping is ASCII-only. */
module Text {
  import ArrayOps

  /** Membership in JavaScript's `\s` class (WhiteSpace and LineTerminator code points). */
  predicate IsSpace(c: char) {
    var n := c as int;
    || n == 0x09 || n == 0x0A || n == 0x0B || n == 0x0C || n == 0x0D
    || n == 0x20 || n == 0xA0 || n == 0x1680
    || (0x2000 <= n <= 0x200A)
    || n == 0x2028 || n == 0x2029 || n == 0x202F || n == 0x205F
    || n == 0x3000 || n == 0xFEFF
  }

  predicate NotSpace(c: char) { !IsSpace(c) }

  predicate NoSpace(s: string) {
    forall i :: 0 <= i < |s| ==> !IsSpace(s[i])
  }

  /** `s.replace(/\s/g, "")`: every whitespace code point removed, the rest kept in order. */
  function StripSpace(s: string): (r: string)
    ensures NoSpace(r)
    ensures forall c :: c in r <==> c in s && !IsSpace(c)
    ensures |r| <= |s|
  {
    if s == [] then []
    else (if IsSpace(s[0]) then [] else [s[0]]) + StripSpace(s[1..])
  }

  /** Stripping keeps exactly the non-whitespace characters, in order and
      with their multiplicity: it is the filter by "not whitespace". */
  lemma {:induction false} StripSpaceIsFilter(s: string)
    ensures StripSpace(s) == ArrayOps.Filter(s, NotSpace)
  {
    if s != [] {
      StripSpaceIsFilter(s[1..]);
    }
  }

  /** A string without whitespace is left as it is, so stripping is idempotent. */
  lemma {:induction false} StripSpaceKeepsSpaceFree(s: string)
    requires NoSpace(s)
    ensures StripSpace(s) == s
  {
    if s != [] {
      assert NoSpace(s[1..]);
      StripSpaceKeepsSpaceFree(s[1..]);
    }
  }

  predicate IsUpperLetter(c: char) { 'A' <= c <= 'Z' }
  predicate IsLowerLetter(c: char) { 'a' <= c <= 'z' }

  function LowerChar(c: char): char {
    if IsUpperLetter(c) then (c as int + 32) as char else c
  }

  function UpperChar(c: char): char {
    if IsLowerLetter(c) then (c as int - 32) as char else c
  }

  /** No upper-case letter: the shape of every `toLowerCase()` result. */
  predicate IsLowerCase(s: string) {
    forall i :: 0 <= i < |s| ==> !IsUpperLetter(s[i])
  }

  /** `s.toLowerCase()` restricted to ASCII letters. */
  function Lower(s: string): (r: string)
    ensures |r| == |s|
    ensures IsLowerCase(r)
    ensures forall i :: 0 <= i < |s| ==> UpperChar(r[i]) == UpperChar(s[i])
  {
    seq(|s|, i requires 0 <= i < |s| => LowerChar(s[i]))
  }

  /** `s.toUpperCase()` restricted to ASCII letters. */
  function Upper(s: string): (r: string)
    ensures |r| == |s|
    ensures forall i :: 0 <= i < |r| ==> !IsLowerLetter(r[i])
    ensures forall i :: 0 <= i < |s| ==> LowerChar(r[i]) == LowerChar(s[i])
  {
    seq(|s|, i requires 0 <= i < |s| => UpperChar(s[i]))
  }

  /** Lower-casing an already lower-case string changes nothing. */
  lemma LowerKeepsLowerCase(s: string)
    requires IsLowerCase(s)
    ensures Lower(s) == s
  {
    assert forall i :: 0 <= i < |s| ==> Lower(s)[i] == s[i];
  }

  /** Equality ignoring ASCII case: same length, and each position equal up to case. */
  predicate SameUpToCase(a: string, b: string) {
    |a| == |b| && forall i :: 0 <= i < |a| ==> UpperChar(a[i]) == UpperChar(b[i])
  }

  lemma LowerCharsAgree(x: char, y: char)
    ensures LowerChar(x) == LowerChar(y) <==> UpperChar(x) == UpperChar(y)
  {
  }

  /** Two strings lower-case to the same string exactly when they agree up to case. */
  lemma LowerEqualIff(a: string, b: string)
    ensures Lower(a) == Lower(b) <==> SameUpToCase(a, b)
  {
    if Lower(a) == Lower(b) {
      forall i | 0 <= i < |a|
        ensures UpperChar(a[i]) == UpperChar(b[i])
      {
        assert Lower(a)[i] == LowerChar(a[i]) && Lower(b)[i] == LowerChar(b[i]);
        LowerCharsAgree(a[i], b[i]);
      }
    }
    if SameUpToCase(a, b) {
      forall i | 0 <= i < |a|
        ensures Lower(a)[i] == Lower(b)[i]
      {
        LowerCharsAgree(a[i], b[i]);
      }
    }
  }

  /** Lower-casing and stripping whitespace commute: case mapping never
      turns a character into whitespace or whitespace into something else. */
  lemma {:induction false} LowerStripCommute(s: string)
    ensures Lower(StripSpace(s)) == StripSpace(Lower(s))
  {
    if s != [] {
      var c, t := s[0], s[1..];
      var lc := LowerChar(c);
      var head: string := if IsSpace(c) then [] else [c];
      var head': string := if IsSpace(lc) then [] else [lc];
      LowerCharKeepsSpace(c);
      assert Lower(head) == head';
      assert s == [c] + t;
      LowerConcat([c], t);
      calc {
        Lower(StripSpace(s));
      == { StripSpaceCons(c, t); }
        Lower(head + StripSpace(t));
      == { LowerConcat(head, StripSpace(t)); }
        head' + Lower(StripSpace(t));
      == { LowerStripCommute(t); }
        head' + StripSpace(Lower(t));
      == { StripSpaceCons(lc, Lower(t)); }
        StripSpace([lc] + Lower(t));
      }
    }
  }

  lemma LowerCharKeepsSpace(c: char)
    ensures IsSpace(LowerChar(c)) == IsSpace(c)
  {
  }

  lemma StripSpaceCons(c: char, t: string)
    ensures StripSpace([c] + t) == (if IsSpace(c) then [] else [c]) + StripSpace(t)
  {
    assert ([c] + t)[0] == c && ([c] + t)[1..] == t;
  }

  lemma LowerConcat(a: string, b: string)
    ensures Lower(a + b) == Lower(a) + Lower(b)
  {
  }

  /** Lower-casing does not introduce or remove whitespace. */
  lemma LowerKeepsSpaceFree(s: string)
    requires NoSpace(s)
    ensures NoSpace(Lower(s))
  {
    forall i | 0 <= i < |s|
      ensures !IsSpace(Lower(s)[i])
    {
      assert Lower(s)[i] == LowerChar(s[i]);
    }
  }

  /** Upper-casing is one-to-one on lower-case strings: two distinct lower-case
      keys never collide after `toUpperCase()`. */
  lemma UpperInjectiveOnLowerCase(a: string, b: string)
    requires IsLowerCase(a) && IsLowerCase(b)
    requires Upper(a) == Upper(b)
    ensures a == b
  {
    assert |a| == |b|;
    forall i | 0 <= i < |a|
      ensures a[i] == b[i]
    {
      assert Upper(a)[i] == UpperChar(a[i]) && Upper(b)[i] == UpperChar(b[i]);
    }
  }

  /** Case mapping leaves every non-letter where it was, in particular '#' and '|'. */
  lemma UpperKeepsSeparator(s: string, c: char)
    requires !IsUpperLetter(c) && !IsLowerLetter(c)
    ensures c in Upper(s) <==> c in s
  {
    if c in s {
      var i :| 0 <= i < |s| && s[i] == c;
      assert Upper(s)[i] == c;
    }
    if c in Upper(s) {
      var i :| 0 <= i < |s| && Upper(s)[i] == c;
      assert UpperChar(s[i]) == c;
    }
  }

  /** Joining two pieces with a separator the first piece does not contain
      can be undone: equal joins have equal pieces. */
  lemma JoinInjective(a1: string, b1: string, a2: string, b2: string, sep: char)
    requires sep !in a1 && sep !in a2
    requires a1 + [sep] + b1 == a2 + [sep] + b2
    ensures a1 == a2 && b1 == b2
  {
    var s := a1 + [sep] + b1;
    assert forall i :: 0 <= i < |a1| ==> s[i] == a1[i];
    assert forall i :: 0 <= i < |a2| ==> s[i] == a2[i];
    assert s[|a1|] == sep && s[|a2|] == sep;
    assert |a1| == |a2|;
    assert a1 == s[..|a1|] == a2;
    assert b1 == s[|a1| + 1..] == b2;
  }

  /** `s.split(sep)`: the pieces between consecutive occurrences of `sep`. */
  function Split(s: string, sep: char): (r: seq<string>)
    ensures |r| >= 1
    ensures forall i :: 0 <= i < |r| ==> sep !in r[i]
    ensures |r| == 1 <==> sep !in s
    decreases |s|
  {
    if sep !in s then [s]
    else
      var i := FirstIndex(s, sep);
      [s[..i]] + Split(s[i + 1..], sep)
  }

  function FirstIndex(s: string, c: char): (i: nat)
    requires c in s
    ensures i < |s| && s[i] == c && c !in s[..i]
  {
    if s[0] == c then 0 else 1 + FirstIndex(s[1..], c)
  }

  /** Splitting a joined string gives back its pieces when none contains the separator. */
  lemma {:induction false} SplitJoin(a: string, rest: string, sep: char)
    requires sep !in a
    ensures Split(a + [sep] + rest, sep) == [a] + Split(rest, sep)
  {
    var s := a + [sep] + rest;
    assert s[|a|] == sep;
    assert sep in s;
    var i := FirstIndex(s, sep);
    assert s[..|a|] == a;
    assert i == |a|;
    assert s[..i] == a;
    assert s[i + 1..] == rest;
  }
}
