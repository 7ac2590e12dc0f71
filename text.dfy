/**
 * The Go string operations the points rules and the request handler rely on:
 * the regular-expression filter `[^a-zA-Z0-9]` replaced by "", `strings.TrimSpace`,
 * `len` of a string (its UTF-8 byte count), and `strings.TrimPrefix` /
 * `strings.TrimSuffix`. Strings are sequences of Unicode scalar values.
 */
module Text {

  predicate IsAsciiAlnum(c: char) {
    'a' <= c <= 'z' || 'A' <= c <= 'Z' || '0' <= c <= '9'
  }

  /** The effect of replacing every match of `[^a-zA-Z0-9]` with the empty string. */
  function StripNonAlnum(s: string): (r: string)
    ensures |r| <= |s|
    ensures forall i :: 0 <= i < |r| ==> IsAsciiAlnum(r[i])
  {
    if s == [] then []
    else (if IsAsciiAlnum(s[0]) then [s[0]] else []) + StripNonAlnum(s[1..])
  }

  /** The positions of `s` that hold an ASCII letter or digit. */
  ghost function AlnumPositions(s: string): set<int> {
    set i | 0 <= i < |s| && IsAsciiAlnum(s[i])
  }

  lemma {:induction false} StripNonAlnumAppend(a: string, b: string)
    ensures StripNonAlnum(a + b) == StripNonAlnum(a) + StripNonAlnum(b)
  {
    if a != [] {
      assert (a + b)[1..] == a[1..] + b;
      StripNonAlnumAppend(a[1..], b);
    } else {
      assert a + b == b;
    }
  }

  /** The filter keeps exactly the characters of `s` that are ASCII letters or digits. */
  lemma {:induction false} StripNonAlnumMembers(s: string)
    ensures forall c :: c in StripNonAlnum(s) <==> c in s && IsAsciiAlnum(c)
  {
    if s != [] {
      StripNonAlnumMembers(s[1..]);
      assert forall c :: c in s <==> c == s[0] || c in s[1..];
    }
  }

  /** What the filter leaves is as long as the number of alphanumeric positions. */
  lemma {:induction false} StripNonAlnumCounts(s: string)
    ensures |StripNonAlnum(s)| == |AlnumPositions(s)|
  {
    if s != [] {
      var init := s[..|s| - 1];
      StripNonAlnumCounts(init);
      StripNonAlnumSnoc(s);
      AlnumPositionsSnoc(s);
    }
  }

  lemma StripNonAlnumSnoc(s: string)
    requires s != []
    ensures |StripNonAlnum(s)| == |StripNonAlnum(s[..|s| - 1])| + (if IsAsciiAlnum(s[|s| - 1]) then 1 else 0)
  {
    var init, c := s[..|s| - 1], s[|s| - 1];
    assert init + [c] == s;
    StripNonAlnumAppend(init, [c]);
    assert [c][1..] == [];
  }

  lemma AlnumPositionsSnoc(s: string)
    requires s != []
    ensures |AlnumPositions(s)| == |AlnumPositions(s[..|s| - 1])| + (if IsAsciiAlnum(s[|s| - 1]) then 1 else 0)
  {
    var n := |s|;
    var init := s[..n - 1];
    var last := if IsAsciiAlnum(s[n - 1]) then {n - 1} else {};
    assert AlnumPositions(s) == AlnumPositions(init) + last;
    assert n - 1 !in AlnumPositions(init);
  }

  /** A string of letters and digits only passes the filter unchanged. */
  lemma {:induction false} StripNonAlnumKeepsAlnum(s: string)
    requires forall i :: 0 <= i < |s| ==> IsAsciiAlnum(s[i])
    ensures StripNonAlnum(s) == s
  {
    if s != [] {
      StripNonAlnumKeepsAlnum(s[1..]);
    }
  }

  /** `unicode.IsSpace`: the Latin-1 spaces and the other Unicode White_Space characters. */
  predicate IsSpace(c: char) {
    c == ' ' || c == '\t' || c == '\n' || c == '\U{000B}' || c == '\U{000C}' || c == '\r'
    || c == '\U{0085}' || c == '\U{00A0}' || c == '\U{1680}'
    || ('\U{2000}' <= c <= '\U{200A}')
    || c == '\U{2028}' || c == '\U{2029}' || c == '\U{202F}' || c == '\U{205F}' || c == '\U{3000}'
  }

  predicate AllSpace(s: string) {
    forall i :: 0 <= i < |s| ==> IsSpace(s[i])
  }

  /** Neither end of `s` is a space (vacuous for the empty string). */
  predicate Trimmed(s: string) {
    s == [] || (!IsSpace(s[0]) && !IsSpace(s[|s| - 1]))
  }

  /** Drop leading white space: what is left is empty or starts with a non-space. */
  function TrimLeftSpace(s: string): (r: string)
    ensures |r| <= |s|
    ensures r == [] || !IsSpace(r[0])
  {
    if s != [] && IsSpace(s[0]) then TrimLeftSpace(s[1..]) else s
  }

  /** Drop trailing white space: what is left is empty or ends with a non-space. */
  function TrimRightSpace(s: string): (r: string)
    ensures |r| <= |s|
    ensures r == [] || !IsSpace(r[|r| - 1])
  {
    if s != [] && IsSpace(s[|s| - 1]) then TrimRightSpace(s[..|s| - 1]) else s
  }

  /** TrimLeftSpace removes a prefix, and that prefix is all white space. */
  lemma {:induction false} TrimLeftSpaceSplit(s: string)
    ensures var k := |s| - |TrimLeftSpace(s)|;
            s[k..] == TrimLeftSpace(s) && AllSpace(s[..k])
  {
    if s != [] && IsSpace(s[0]) {
      TrimLeftSpaceSplit(s[1..]);
      var k := |s| - |TrimLeftSpace(s)|;
      assert s[1..][k - 1..] == s[k..];
      assert forall i :: 1 <= i < k ==> s[i] == s[1..][..k - 1][i - 1];
    }
  }

  /** TrimRightSpace removes a suffix, and that suffix is all white space. */
  lemma {:induction false} TrimRightSpaceSplit(s: string)
    ensures var k := |TrimRightSpace(s)|;
            s[..k] == TrimRightSpace(s) && AllSpace(s[k..])
  {
    if s != [] && IsSpace(s[|s| - 1]) {
      var init := s[..|s| - 1];
      TrimRightSpaceSplit(init);
      var k := |TrimRightSpace(s)|;
      assert init[..k] == s[..k];
      assert forall i :: k <= i < |s| - 1 ==> s[i] == init[k..][i - k];
    }
  }

  /** `strings.TrimSpace`: drop leading and trailing white space, leaving no space at either end. */
  function TrimSpace(s: string): (r: string)
    ensures |r| <= |s|
    ensures Trimmed(r)
  {
    var l := TrimLeftSpace(s);
    TrimRightSpaceSplit(l);
    TrimRightSpace(l)
  }

  lemma {:induction false} TrimLeftOverSpaces(a: string, rest: string)
    requires AllSpace(a)
    requires rest == [] || !IsSpace(rest[0])
    ensures TrimLeftSpace(a + rest) == rest
  {
    if a == [] {
      assert a + rest == rest;
    } else {
      assert (a + rest)[1..] == a[1..] + rest;
      TrimLeftOverSpaces(a[1..], rest);
    }
  }

  lemma {:induction false} TrimRightOverSpaces(rest: string, b: string)
    requires AllSpace(b)
    requires rest == [] || !IsSpace(rest[|rest| - 1])
    ensures TrimRightSpace(rest + b) == rest
  {
    if b == [] {
      assert rest + b == rest;
    } else {
      var b' := b[..|b| - 1];
      assert (rest + b)[..|rest + b| - 1] == rest + b';
      TrimRightOverSpaces(rest, b');
    }
  }

  /**
   * TrimSpace is characterised independently: whenever `s` splits into
   * white space, a core with no space at either end, and white space,
   * TrimSpace returns that core.
   */
  lemma TrimSpaceOfPadded(a: string, core: string, b: string)
    requires AllSpace(a) && AllSpace(b) && Trimmed(core)
    ensures TrimSpace(a + core + b) == core
  {
    if core == [] {
      assert a + core + b == a + b;
      assert AllSpace(a + b);
      TrimLeftOverSpaces(a + b, []);
      assert a + b + [] == a + b;
    } else {
      assert a + core + b == a + (core + b);
      TrimLeftOverSpaces(a, core + b);
      TrimRightOverSpaces(core, b);
    }
  }

  /**
   * TrimSpace cuts only white space: its result is the slice s[i..j] of its input,
   * and everything before i and from j on is white space.
   */
  lemma TrimSpaceSlice(s: string)
    ensures var i := |s| - |TrimLeftSpace(s)|;
            var j := i + |TrimSpace(s)|;
            j <= |s| && s[i..j] == TrimSpace(s) && AllSpace(s[..i]) && AllSpace(s[j..])
  {
    TrimSpaceCore(s);
    TrimSpaceTail(s);
  }

  lemma TrimSpaceCore(s: string)
    ensures var i := |s| - |TrimLeftSpace(s)|;
            i + |TrimSpace(s)| <= |s| && s[i..i + |TrimSpace(s)|] == TrimSpace(s)
  {
    var l := TrimLeftSpace(s);
    var r := TrimRightSpace(l);
    var i := |s| - |l|;
    TrimLeftSpaceSplit(s);
    TrimRightSpaceSplit(l);
    assert s[i..][..|r|] == s[i..i + |r|];
  }

  lemma TrimSpaceTail(s: string)
    ensures var j := |s| - |TrimLeftSpace(s)| + |TrimSpace(s)|;
            j <= |s| && AllSpace(s[j..])
  {
    var l := TrimLeftSpace(s);
    var r := TrimRightSpace(l);
    var j := |s| - |l| + |r|;
    TrimLeftSpaceSplit(s);
    TrimRightSpaceSplit(l);
    assert s[j..] == l[|r|..];
  }

  /** The result of TrimSpace has no space at either end, and trimming it again changes nothing. */
  lemma TrimSpaceIdempotent(s: string)
    ensures Trimmed(TrimSpace(s))
    ensures TrimSpace(TrimSpace(s)) == TrimSpace(s)
  {
    var l := TrimLeftSpace(s);
    var r := TrimRightSpace(l);
    assert r == TrimSpace(s);
    TrimSpaceOfPadded([], r, []);
    assert [] + r + [] == r;
  }

  /** Number of bytes UTF-8 uses for one character. */
  function Utf8Width(c: char): (n: nat)
    ensures 1 <= n <= 4
    ensures n == 1 <==> c as int < 0x80
  {
    if c as int < 0x80 then 1
    else if c as int < 0x800 then 2
    else if c as int < 0x10000 then 3
    else 4
  }

  /** Go's `len` of a string: its length in UTF-8 bytes. */
  function ByteLen(s: string): (n: nat)
    ensures |s| <= n <= 4 * |s|
  {
    if s == [] then 0 else Utf8Width(s[0]) + ByteLen(s[1..])
  }

  /** On ASCII text the byte length is the character count. */
  lemma {:induction false} ByteLenAscii(s: string)
    requires forall i :: 0 <= i < |s| ==> s[i] as int < 0x80
    ensures ByteLen(s) == |s|
  {
    if s != [] {
      ByteLenAscii(s[1..]);
    }
  }

  lemma {:induction false} ByteLenAppend(a: string, b: string)
    ensures ByteLen(a + b) == ByteLen(a) + ByteLen(b)
  {
    if a == [] {
      assert a + b == b;
    } else {
      assert (a + b)[1..] == a[1..] + b;
      ByteLenAppend(a[1..], b);
    }
  }

  /** `strings.TrimPrefix`. */
  function TrimPrefix(s: string, prefix: string): (r: string)
    ensures prefix <= s ==> prefix + r == s
    ensures !(prefix <= s) ==> r == s
  {
    if prefix <= s then s[|prefix|..] else s
  }

  /** `strings.TrimSuffix`. */
  function TrimSuffix(s: string, suffix: string): (r: string)
    ensures HasSuffix(s, suffix) ==> r + suffix == s
    ensures !HasSuffix(s, suffix) ==> r == s
  {
    if HasSuffix(s, suffix) then s[..|s| - |suffix|] else s
  }

  predicate HasSuffix(s: string, suffix: string) {
    |suffix| <= |s| && s[|s| - |suffix|..] == suffix
  }
}
