/** The string operations the records layer relies on: Python's `str.strip()`,
    `str.upper()` / `str.lower()` restricted to ASCII letters, and the
    code-point lexicographic order Python uses for `<` on strings. */
module Text {
  import Orders

  /** The characters for which Python's `str.isspace()` holds. */
  predicate IsSpace(c: char) {
    var x := c as int;
    || 9 <= x <= 13
    || 28 <= x <= 32
    || x == 0x85 || x == 0xA0 || x == 0x1680
    || 0x2000 <= x <= 0x200A
    || x == 0x2028 || x == 0x2029 || x == 0x202F || x == 0x205F || x == 0x3000
  }

  /** Drops leading white space: the rest of `s` from its first non-space character. */
  function TrimStart(s: string): string {
    if s != [] && IsSpace(s[0]) then TrimStart(s[1..]) else s
  }

  /** `TrimStart(s)` is the suffix of `s` after its leading white space. */
  lemma {:induction false} TrimStartSpec(s: string)
    ensures var r := TrimStart(s);
      && |r| <= |s| && r == s[|s| - |r|..]
      && (forall i :: 0 <= i < |s| - |r| ==> IsSpace(s[i]))
      && (r != [] ==> !IsSpace(r[0]))
  {
    if s != [] && IsSpace(s[0]) {
      TrimStartSpec(s[1..]);
      var r := TrimStart(s);
      forall i | 0 <= i < |s| - |r| ensures IsSpace(s[i]) {
        if i > 0 {
          assert s[i] == s[1..][i - 1];
        }
      }
    }
  }

  /** Drops trailing white space. */
  function TrimEnd(s: string): string {
    if s != [] && IsSpace(s[|s| - 1]) then TrimEnd(s[..|s| - 1]) else s
  }

  /** `TrimEnd(s)` is the prefix of `s` before its trailing white space. */
  lemma {:induction false} TrimEndSpec(s: string)
    ensures var r := TrimEnd(s);
      && |r| <= |s| && r == s[..|r|]
      && (forall i :: |r| <= i < |s| ==> IsSpace(s[i]))
      && (r != [] ==> !IsSpace(r[|r| - 1]))
  {
    if s != [] && IsSpace(s[|s| - 1]) {
      TrimEndSpec(s[..|s| - 1]);
      var r := TrimEnd(s);
      forall i | |r| <= i < |s| ensures IsSpace(s[i]) {
        if i < |s| - 1 {
          assert s[i] == s[..|s| - 1][i];
        }
      }
    }
  }

  /** Python's `s.strip()`. */
  function Strip(s: string): string {
    TrimEnd(TrimStart(s))
  }

  /** A string with no white space at either end is its own `strip()`. */
  lemma StripTrimmed(s: string)
    requires s != [] ==> !IsSpace(s[0]) && !IsSpace(s[|s| - 1])
    ensures Strip(s) == s
  {
  }

  /** `strip()` removes only white space: every other character of `s` is kept. */
  lemma StripKeeps(s: string, k: nat)
    requires k < |s| && !IsSpace(s[k])
    ensures s[k] in Strip(s)
  {
    var t := TrimStart(s);
    TrimStartSpec(s);
    var off := |s| - |t|;
    assert off <= k;
    assert t[k - off] == s[k];
    TrimEndSpec(t);
    assert Strip(s)[k - off] == s[k];
  }

  /** `strip()` leaves a string that has no white space at either end,
      and so stripping twice is stripping once. */
  lemma StripIdempotent(s: string)
    ensures var r := Strip(s); r != [] ==> !IsSpace(r[0]) && !IsSpace(r[|r| - 1])
    ensures Strip(Strip(s)) == Strip(s)
  {
    var t := TrimStart(s);
    TrimStartSpec(s);
    var r := TrimEnd(t);
    TrimEndSpec(t);
    if r != [] {
      assert r[0] == t[0];
    }
    StripTrimmed(r);
  }

  function UpperChar(c: char): char {
    if 'a' <= c <= 'z' then (c as int - 32) as char else c
  }

  function LowerChar(c: char): char {
    if 'A' <= c <= 'Z' then (c as int + 32) as char else c
  }

  /** `str.upper()` on ASCII letters; every other character is kept. */
  function Upper(s: string): string {
    if s == [] then [] else [UpperChar(s[0])] + Upper(s[1..])
  }

  /** `Upper` maps each character on its own and keeps the length. */
  lemma {:induction false} UpperSpec(s: string)
    ensures |Upper(s)| == |s|
    ensures forall i :: 0 <= i < |s| ==> Upper(s)[i] == UpperChar(s[i])
  {
    if s != [] {
      UpperSpec(s[1..]);
      assert forall i :: 1 <= i < |s| ==> Upper(s)[i] == Upper(s[1..])[i - 1];
    }
  }

  /** `str.lower()` on ASCII letters; every other character is kept. */
  function Lower(s: string): string {
    if s == [] then [] else [LowerChar(s[0])] + Lower(s[1..])
  }

  /** `Lower` maps each character on its own and keeps the length. */
  lemma {:induction false} LowerSpec(s: string)
    ensures |Lower(s)| == |s|
    ensures forall i :: 0 <= i < |s| ==> Lower(s)[i] == LowerChar(s[i])
  {
    if s != [] {
      LowerSpec(s[1..]);
      assert forall i :: 1 <= i < |s| ==> Lower(s)[i] == Lower(s[1..])[i - 1];
    }
  }

  /** The normal form of a subject code: `code.strip().upper()`. */
  function NormalizeCode(code: string): string {
    Upper(Strip(code))
  }

  /** The shape of a normalised code: no white space at either end and no
      lower-case ASCII letter. */
  predicate IsNormalCode(c: string) {
    && (c != [] ==> !IsSpace(c[0]) && !IsSpace(c[|c| - 1]))
    && forall i :: 0 <= i < |c| ==> !('a' <= c[i] <= 'z')
  }

  /** `strip().upper()` yields a code of that shape. */
  lemma NormalizeShape(code: string)
    ensures IsNormalCode(NormalizeCode(code))
  {
    var s := Strip(code);
    StripIdempotent(code);
    var c := Upper(s);
    UpperSpec(s);
    if c != [] {
      assert c[0] == UpperChar(s[0]) && c[|c| - 1] == UpperChar(s[|s| - 1]);
    }
  }

  /** A code of that shape is its own normal form. */
  lemma NormalCodeFixed(c: string)
    requires IsNormalCode(c)
    ensures NormalizeCode(c) == c
  {
    StripTrimmed(c);
    UpperSpec(c);
    assert Upper(c) == c;
  }

  /** Normalising a code twice gives what normalising it once gives. */
  lemma NormalizeIdempotent(code: string)
    ensures NormalizeCode(NormalizeCode(code)) == NormalizeCode(code)
  {
    NormalizeShape(code);
    NormalCodeFixed(NormalizeCode(code));
  }

  /** Python's `<` on strings: lexicographic by code point, a proper prefix first. */
  predicate Less(a: string, b: string) {
    if b == [] then false
    else if a == [] then true
    else if a[0] != b[0] then a[0] < b[0]
    else Less(a[1..], b[1..])
  }

  lemma {:induction false} LessIrreflexive(a: string)
    ensures !Less(a, a)
  {
    if a != [] {
      LessIrreflexive(a[1..]);
    }
  }

  lemma {:induction false} LessTransitive(a: string, b: string, c: string)
    requires Less(a, b) && Less(b, c)
    ensures Less(a, c)
  {
    if a != [] && a[0] == b[0] && b[0] == c[0] {
      LessTransitive(a[1..], b[1..], c[1..]);
    }
  }

  lemma {:induction false} LessTotal(a: string, b: string)
    ensures Less(a, b) || a == b || Less(b, a)
  {
    if a != [] && b != [] && a[0] == b[0] {
      LessTotal(a[1..], b[1..]);
      if a[1..] == b[1..] {
        assert a == [a[0]] + a[1..] && b == [b[0]] + b[1..];
      }
    }
  }

  function StringLess(): (string, string) -> bool {
    (a: string, b: string) => Less(a, b)
  }

  /** String comparison is a strict total order, so the generic sorts and the
      search tree may use it. */
  lemma LessIsStrictTotalOrder()
    ensures Orders.StrictTotalOrder(StringLess())
  {
    forall a: string ensures !Less(a, a) {
      LessIrreflexive(a);
    }
    forall a: string, b: string, c: string ensures Orders.TransitiveAt(StringLess(), a, b, c) {
      if Less(a, b) && Less(b, c) {
        LessTransitive(a, b, c);
      }
    }
    forall a: string, b: string ensures a == b || Less(a, b) || Less(b, a) {
      LessTotal(a, b);
    }
  }
}
