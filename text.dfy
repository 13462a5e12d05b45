/**
 * The string operations the car model relies on: Java's `String.trim()`,
 * ASCII upper-casing, and the `@NotBlank` test built on them.
 *
 * The operations are plain recursive definitions; what they guarantee is
 * stated by the `...Spec` lemmas beside them.
 */
module Text {
  import opened Wrappers

  /** `String.trim()` drops every leading and trailing char at or below U+0020. */
  predicate IsTrimmable(c: char) {
    c <= ' '
  }

  predicate AllTrimmable(s: string) {
    forall i :: 0 <= i < |s| ==> IsTrimmable(s[i])
  }

  /** `trim()` has nothing to remove: the string is empty or starts and ends with a kept char. */
  predicate IsTrimmed(s: string) {
    s != [] ==> !IsTrimmable(s[0]) && !IsTrimmable(s[|s| - 1])
  }

  /** Leading trimmable chars removed. */
  function TrimStart(s: string): string {
    if s != [] && IsTrimmable(s[0]) then TrimStart(s[1..]) else s
  }

  /** Trailing trimmable chars removed. */
  function TrimEnd(s: string): string {
    if s != [] && IsTrimmable(s[|s| - 1]) then TrimEnd(s[..|s| - 1]) else s
  }

  /** Java's `String.trim()`. */
  function Trim(s: string): string {
    TrimEnd(TrimStart(s))
  }

  /** `TrimStart` keeps a suffix and drops only trimmable chars before it. */
  lemma {:induction false} TrimStartSpec(s: string)
    ensures |TrimStart(s)| <= |s| && TrimStart(s) == s[|s| - |TrimStart(s)|..]
    ensures AllTrimmable(s[..|s| - |TrimStart(s)|])
    ensures TrimStart(s) != [] ==> !IsTrimmable(TrimStart(s)[0])
  {
    if s != [] && IsTrimmable(s[0]) {
      var t := s[1..];
      TrimStartSpec(t);
      var r := TrimStart(t);
      assert TrimStart(s) == r;
      assert t[|t| - |r|..] == s[|s| - |r|..];
      var dropped := s[..|s| - |r|];
      assert dropped == [s[0]] + t[..|t| - |r|];
      forall i | 0 <= i < |dropped| ensures IsTrimmable(dropped[i]) {
        if i > 0 {
          assert dropped[i] == t[..|t| - |r|][i - 1];
        }
      }
    }
  }

  /** `TrimEnd` keeps a prefix and drops only trimmable chars after it. */
  lemma {:induction false} TrimEndSpec(s: string)
    ensures |TrimEnd(s)| <= |s| && TrimEnd(s) == s[..|TrimEnd(s)|]
    ensures AllTrimmable(s[|TrimEnd(s)|..])
    ensures TrimEnd(s) != [] ==> !IsTrimmable(TrimEnd(s)[|TrimEnd(s)| - 1])
  {
    if s != [] && IsTrimmable(s[|s| - 1]) {
      var p := s[..|s| - 1];
      TrimEndSpec(p);
      var r := TrimEnd(p);
      assert TrimEnd(s) == r;
      assert p[..|r|] == s[..|r|];
      var dropped := s[|r|..];
      assert dropped == p[|r|..] + [s[|s| - 1]];
      forall i | 0 <= i < |dropped| ensures IsTrimmable(dropped[i]) {
        if i < |dropped| - 1 {
          assert dropped[i] == p[|r|..][i];
        }
      }
    }
  }

  /**
   * `trim()` never lengthens, leaves nothing to trim, and yields the empty
   * string exactly when every char of the input is trimmable.
   */
  lemma TrimSpec(s: string)
    ensures |Trim(s)| <= |s|
    ensures IsTrimmed(Trim(s))
    ensures Trim(s) == [] <==> AllTrimmable(s)
  {
    TrimStartSpec(s);
    var t := TrimStart(s);
    TrimEndSpec(t);
    var r := TrimEnd(t);
    var k := |s| - |t|;
    if r == [] {
      assert t[|r|..] == t;
      assert t == [];
      assert s[..k] == s;
    } else {
      assert r[0] == t[0];
      assert s[k] == t[0];
    }
  }

  predicate IsAsciiLower(c: char) {
    'a' <= c <= 'z'
  }

  function UpperChar(c: char): (u: char)
    ensures IsAsciiLower(c) ==> u as int == c as int - 32
    ensures !IsAsciiLower(u)
    ensures IsTrimmable(u) <==> IsTrimmable(c)
    ensures !IsAsciiLower(c) ==> u == c
  {
    if IsAsciiLower(c) then (c as int - 32) as char else c
  }

  /** `Character.toLowerCase` restricted to ASCII: A-Z become a-z, every other char is kept. */
  function LowerChar(c: char): (l: char)
    ensures 'A' <= c <= 'Z' ==> l as int == c as int + 32
    ensures !('A' <= c <= 'Z') ==> l == c
    ensures UpperChar(l) == UpperChar(c)
  {
    if 'A' <= c <= 'Z' then (c as int + 32) as char else c
  }

  /** `String.toUpperCase()` restricted to ASCII: a-z become A-Z, every other char is kept. */
  function ToUpper(s: string): string {
    if s == [] then [] else [UpperChar(s[0])] + ToUpper(s[1..])
  }

  /** Upper-casing works char by char and keeps the length. */
  lemma {:induction false} ToUpperSpec(s: string)
    ensures |ToUpper(s)| == |s|
    ensures forall i :: 0 <= i < |s| ==> ToUpper(s)[i] == UpperChar(s[i])
  {
    if s != [] {
      ToUpperSpec(s[1..]);
      forall i | 0 <= i < |s| ensures ToUpper(s)[i] == UpperChar(s[i]) {
        if i > 0 {
          assert ToUpper(s)[i] == ToUpper(s[1..])[i - 1];
        }
      }
    }
  }

  /**
   * `String.toLowerCase()` restricted to ASCII, char by char; a lower-cased
   * string upper-cases to what the original does.
   */
  function ToLower(s: string): (r: string)
    ensures |r| == |s|
    ensures forall i :: 0 <= i < |s| ==> r[i] == LowerChar(s[i])
    ensures ToUpper(r) == ToUpper(s)
  {
    if s == [] then []
    else
      var r := [LowerChar(s[0])] + ToLower(s[1..]);
      assert r[1..] == ToLower(s[1..]);
      assert forall i :: 1 <= i < |s| ==> r[i] == ToLower(s[1..])[i - 1];
      r
  }

  /** The canonical form of a VIN: trimmed, then upper-cased. */
  function Canonical(s: string): string {
    ToUpper(Trim(s))
  }

  /** `@NotBlank`: not null, and something is left after trimming. */
  predicate NotBlank(v: Option<string>) {
    v.Some? && Trim(v.value) != []
  }

  /** `Trim` of a string with nothing to trim is the string itself. */
  lemma TrimOfTrimmed(s: string)
    requires IsTrimmed(s)
    ensures Trim(s) == s
  {
    assert TrimStart(s) == s;
  }

  lemma {:induction false} TrimStartOfPadded(pre: string, x: string)
    requires AllTrimmable(pre)
    requires x != [] ==> !IsTrimmable(x[0])
    ensures TrimStart(pre + x) == x
  {
    if pre != [] {
      assert (pre + x)[1..] == pre[1..] + x;
      TrimStartOfPadded(pre[1..], x);
    }
  }

  lemma {:induction false} TrimEndOfPadded(x: string, post: string)
    requires AllTrimmable(post)
    requires x != [] ==> !IsTrimmable(x[|x| - 1])
    ensures TrimEnd(x + post) == x
  {
    if post != [] {
      var s := x + post;
      assert s[..|s| - 1] == x + post[..|post| - 1];
      TrimEndOfPadded(x, post[..|post| - 1]);
    }
  }

  /**
   * Trimming removes exactly the surrounding padding: `trim` of `pre + x + post`
   * is `x` whenever the padding is all trimmable and `x` has nothing to trim.
   */
  lemma TrimOfPadded(pre: string, x: string, post: string)
    requires AllTrimmable(pre) && AllTrimmable(post)
    requires IsTrimmed(x)
    ensures Trim(pre + x + post) == x
  {
    if x == [] {
      assert pre + x + post == pre + post;
      assert AllTrimmable(pre + post);
      TrimSpec(pre + post);
    } else {
      assert pre + x + post == pre + (x + post);
      TrimStartOfPadded(pre, x + post);
      TrimEndOfPadded(x, post);
    }
  }

  /** Trimming twice is trimming once. */
  lemma TrimIdempotent(s: string)
    ensures Trim(Trim(s)) == Trim(s)
  {
    TrimSpec(s);
    TrimOfTrimmed(Trim(s));
  }

  lemma {:induction false} TrimStartCommutesWithUpper(s: string)
    ensures TrimStart(ToUpper(s)) == ToUpper(TrimStart(s))
  {
    if s != [] {
      assert ToUpper(s)[1..] == ToUpper(s[1..]);
      TrimStartCommutesWithUpper(s[1..]);
    }
  }

  lemma {:induction false} TrimEndCommutesWithUpper(s: string)
    ensures TrimEnd(ToUpper(s)) == ToUpper(TrimEnd(s))
  {
    if s != [] {
      var p := s[..|s| - 1];
      ToUpperSpec(s);
      ToUpperSpec(p);
      assert ToUpper(s)[..|s| - 1] == ToUpper(p);
      TrimEndCommutesWithUpper(p);
    }
  }

  /** Upper-casing never creates or removes trimmable chars, so it commutes with `trim`. */
  lemma TrimCommutesWithUpper(s: string)
    ensures Trim(ToUpper(s)) == ToUpper(Trim(s))
  {
    TrimStartCommutesWithUpper(s);
    TrimEndCommutesWithUpper(TrimStart(s));
  }

  /** A string without ASCII lower-case letters is its own upper-case form. */
  lemma ToUpperOfUpper(s: string)
    requires forall i :: 0 <= i < |s| ==> !IsAsciiLower(s[i])
    ensures ToUpper(s) == s
  {
    ToUpperSpec(s);
  }

  /** Canonicalising a canonical string changes nothing. */
  lemma CanonicalIdempotent(s: string)
    ensures Canonical(Canonical(s)) == Canonical(s)
  {
    var t := Trim(s);
    var u := ToUpper(t);
    TrimCommutesWithUpper(t);
    TrimIdempotent(s);
    assert Trim(u) == u;
    ToUpperSpec(t);
    ToUpperOfUpper(u);
  }

  /** A canonical string has nothing to trim and no ASCII lower-case letter. */
  lemma CanonicalIsFixed(v: string)
    requires Canonical(v) == v
    ensures Trim(v) == v && ToUpper(v) == v
  {
    var t := Trim(v);
    TrimCommutesWithUpper(t);
    TrimIdempotent(v);
    ToUpperSpec(t);
    ToUpperOfUpper(v);
  }

  /**
   * Any case and whitespace variant of a canonical string canonicalises back to
   * it: `x` is any spelling whose upper-case form is `v`, and the padding
   * around it is trimmed.
   */
  lemma CanonicalOfVariant(v: string, x: string, pre: string, post: string)
    requires Canonical(v) == v
    requires ToUpper(x) == v
    requires AllTrimmable(pre) && AllTrimmable(post)
    ensures Canonical(pre + x + post) == v
  {
    CanonicalIsFixed(v);
    TrimSpec(v);
    ToUpperSpec(x);
    assert IsTrimmed(x) by {
      if x != [] {
        assert v[0] == UpperChar(x[0]) && v[|v| - 1] == UpperChar(x[|x| - 1]);
      }
    }
    TrimOfPadded(pre, x, post);
  }
}
