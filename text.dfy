/**
 * String helpers of the invite-link refresh: ASCII case mapping, the key
 * sanitiser (`sanitizeKey`), the display-name formatter (`formatName`) and
 * `String.prototype.split("#")`.
 *
 * Case mapping is ASCII only: `toUpperCase`/`toLowerCase` are Unicode-aware
 * in JavaScript, which this model does not capture.
 */
module Text {
  import opened Seqs

  predicate IsAlnum(c: char) {
    'a' <= c <= 'z' || 'A' <= c <= 'Z' || '0' <= c <= '9'
  }

  predicate IsLower(c: char) { 'a' <= c <= 'z' }

  predicate IsUpper(c: char) { 'A' <= c <= 'Z' }

  function UpperChar(c: char): char {
    if IsLower(c) then (c as int - 'a' as int + 'A' as int) as char else c
  }

  function LowerChar(c: char): char {
    if IsUpper(c) then (c as int - 'A' as int + 'a' as int) as char else c
  }

  function ToUpper(s: string): string {
    seq(|s|, i requires 0 <= i < |s| => UpperChar(s[i]))
  }

  function ToLower(s: string): string {
    seq(|s|, i requires 0 <= i < |s| => LowerChar(s[i]))
  }

  /** `sanitizeKey`: removes every character outside `[a-zA-Z0-9]`. */
  function Sanitize(s: string): (r: string)
    ensures |r| <= |s|
    ensures forall i :: 0 <= i < |r| ==> IsAlnum(r[i]) && r[i] in s
  {
    if s == [] then []
    else if IsAlnum(s[0]) then [s[0]] + Sanitize(s[1..])
    else Sanitize(s[1..])
  }

  /** The sanitised string keeps the input's characters in their order. */
  lemma {:induction false} SanitizeIsSubsequence(s: string)
    ensures IsSubsequence(Sanitize(s), s)
  {
    if s != [] {
      SanitizeIsSubsequence(s[1..]);
      if !IsAlnum(s[0]) && Sanitize(s[1..]) != [] {
        // Sanitize(s[1..])[0] is alphanumeric, so it cannot match s[0].
        assert Sanitize(s)[0] != s[0];
      }
    }
  }

  /** Every alphanumeric character of the input survives, as often as it occurs; nothing else does. */
  lemma {:induction false} SanitizeKeepsAlnum(s: string)
    ensures forall c :: multiset(Sanitize(s))[c] == if IsAlnum(c) then multiset(s)[c] else 0
  {
    if s != [] {
      SanitizeKeepsAlnum(s[1..]);
      assert s == [s[0]] + s[1..];
      assert multiset(s) == multiset{s[0]} + multiset(s[1..]);
    }
  }

  /** A string made of alphanumerics only is left unchanged. */
  lemma {:induction false} SanitizeFixesAlnum(s: string)
    requires forall i :: 0 <= i < |s| ==> IsAlnum(s[i])
    ensures Sanitize(s) == s
  {
    if s != [] {
      SanitizeFixesAlnum(s[1..]);
    }
  }

  /** Sanitising twice is sanitising once. */
  lemma SanitizeIdempotent(s: string)
    ensures Sanitize(Sanitize(s)) == Sanitize(s)
  {
    SanitizeFixesAlnum(Sanitize(s));
  }

  /** Sanitising distributes over concatenation. */
  lemma {:induction false} SanitizeConcat(a: string, b: string)
    ensures Sanitize(a + b) == Sanitize(a) + Sanitize(b)
  {
    if a != [] {
      assert (a + b)[1..] == a[1..] + b;
      SanitizeConcat(a[1..], b);
    } else {
      assert a + b == b;
    }
  }

  /**
   * A sanitised upper-cased string holds only upper-case ASCII letters and
   * digits: the shape of every domain and category part of a bucket key.
   */
  lemma SanitizedUpperIsKeyShaped(s: string)
    ensures forall i :: 0 <= i < |Sanitize(ToUpper(s))| ==>
              IsUpper(Sanitize(ToUpper(s))[i]) || '0' <= Sanitize(ToUpper(s))[i] <= '9'
  {
    var u := ToUpper(s);
    forall i | 0 <= i < |Sanitize(u)|
      ensures IsUpper(Sanitize(u)[i]) || '0' <= Sanitize(u)[i] <= '9'
    {
      var c := Sanitize(u)[i];
      assert c in u;
      var j :| 0 <= j < |u| && u[j] == c;
      assert !IsLower(u[j]);
    }
  }

  /**
   * `formatName`: the empty string stays empty; otherwise the first character
   * is upper-cased and the rest lower-cased.
   */
  function FormatName(s: string): (r: string)
    ensures |r| == |s|
    ensures r == "" <==> s == ""
    ensures r != "" ==> !IsLower(r[0])
    ensures forall i :: 1 <= i < |r| ==> !IsUpper(r[i])
    ensures ToUpper(r) == ToUpper(s)
  {
    if s == "" then ""
    else [UpperChar(s[0])] + ToLower(s[1..])
  }

  /** Formatting a formatted name changes nothing. */
  lemma FormatNameIdempotent(s: string)
    ensures FormatName(FormatName(s)) == FormatName(s)
  {
    if s != "" {
      var r := FormatName(s);
      assert r[1..] == ToLower(s[1..]);
      assert ToLower(r[1..]) == r[1..];
    }
  }

  /** `String.prototype.split("#")`: the parts between the `#` separators, at least one. */
  function Split(s: string): (r: seq<string>)
    ensures |r| >= 1
  {
    if s == [] then [""]
    else
      var rest := Split(s[1..]);
      if s[0] == '#' then [""] + rest
      else [[s[0]] + rest[0]] + rest[1..]
  }

  /** A string without `#` splits into itself. */
  lemma {:induction false} SplitWithoutHash(s: string)
    requires '#' !in s
    ensures Split(s) == [s]
  {
    if s != [] {
      SplitWithoutHash(s[1..]);
      assert [s[0]] + s[1..] == s;
    }
  }

  /** Splitting `d + "#" + c` recovers `d` as the first part when `d` has no `#`. */
  lemma {:induction false} SplitJoin(d: string, c: string)
    requires '#' !in d
    ensures Split(d + "#" + c) == [d] + Split(c)
  {
    if d == [] {
      assert d + "#" + c == ['#'] + c;
      assert (['#'] + c)[1..] == c;
    } else {
      assert (d + "#" + c)[1..] == d[1..] + "#" + c;
      SplitJoin(d[1..], c);
      assert (d + "#" + c)[0] == d[0];
      assert [d[0]] + d[1..] == d;
    }
  }
}
