/**
 * The string operations the tool relies on from Python's `str`: `strip()`,
 * `lower()`, `isdigit()`, the substring test `p in s`, `sep.join(parts)`.
 * Characters are taken to be ASCII: the tool's inputs are column names,
 * schema names and terminal answers, and only the ASCII behaviour is modelled.
 */
module Text {

  /** The ASCII characters Python's `str.isspace()` accepts (and `strip()` removes). */
  predicate IsSpace(c: char) {
    // space; tab, line feed, vertical tab, form feed, carriage return; the four separators 0x1c-0x1f
    c == ' ' || 9 <= c as int <= 13 || 28 <= c as int <= 31
  }

  /** `str.lstrip()`: drop leading whitespace. */
  function TrimLeft(s: string): (r: string)
    ensures |r| <= |s| && r == s[|s| - |r|..]
    ensures forall i :: 0 <= i < |s| - |r| ==> IsSpace(s[i])
    ensures r != [] ==> !IsSpace(r[0])
  {
    if |s| > 0 && IsSpace(s[0]) then TrimLeft(s[1..]) else s
  }

  /** `str.rstrip()`: drop trailing whitespace. */
  function TrimRight(s: string): (r: string)
    ensures |r| <= |s| && r == s[..|r|]
    ensures forall i :: |r| <= i < |s| ==> IsSpace(s[i])
    ensures r != [] ==> !IsSpace(r[|r| - 1])
  {
    if |s| > 0 && IsSpace(s[|s| - 1]) then TrimRight(s[..|s| - 1]) else s
  }

  /** `str.strip()`: the longest slice of `s` that neither starts nor ends with whitespace. */
  function Strip(s: string): (r: string)
    ensures |r| <= |s|
    ensures r != [] ==> !IsSpace(r[0]) && !IsSpace(r[|r| - 1])
  {
    TrimRight(TrimLeft(s))
  }

  /** Stripping keeps the characters of `s` in place: `s` is `Strip(s)` padded on both sides with whitespace. */
  lemma StripIsPadding(s: string)
    ensures var k := |s| - |TrimLeft(s)|;
      && k + |Strip(s)| <= |s| && s[k..k + |Strip(s)|] == Strip(s)
      && (forall i :: 0 <= i < k ==> IsSpace(s[i]))
      && (forall i :: k + |Strip(s)| <= i < |s| ==> IsSpace(s[i]))
  {
    StripMiddle(s);
    StripTrailing(s);
  }

  /** `Strip(s)` sits in `s` right after the leading whitespace. */
  lemma StripMiddle(s: string)
    ensures var k := |s| - |TrimLeft(s)|;
      k + |Strip(s)| <= |s| && s[k..k + |Strip(s)|] == Strip(s)
  {
    var l := TrimLeft(s);
    var r := TrimRight(l);
    PrefixOfSuffix(s, l, r, |s| - |l|);
  }

  /** Everything in `s` after `Strip(s)` is whitespace. */
  lemma StripTrailing(s: string)
    ensures var k := |s| - |TrimLeft(s)|;
      forall i :: k + |Strip(s)| <= i < |s| ==> IsSpace(s[i])
  {
    SpaceAfterPrefix(s, TrimLeft(s), Strip(s), |s| - |TrimLeft(s)|);
  }

  /** A prefix `r` of the suffix `s[k..]` is the slice of `s` starting at `k`. */
  lemma PrefixOfSuffix(s: string, l: string, r: string, k: nat)
    requires k <= |s| && l == s[k..] && |r| <= |l| && r == l[..|r|]
    ensures k + |r| <= |s| && s[k..k + |r|] == r
  {
  }

  /** When the suffix `s[k..]` is whitespace after its first `|r|` characters, so is `s` after `k + |r|`. */
  lemma SpaceAfterPrefix(s: string, l: string, r: string, k: nat)
    requires k <= |s| && l == s[k..] && |r| <= |l|
    requires forall i :: |r| <= i < |l| ==> IsSpace(l[i])
    ensures forall i :: k + |r| <= i < |s| ==> IsSpace(s[i])
  {
    forall i | k + |r| <= i < |s| ensures IsSpace(s[i]) {
      assert s[i] == l[i - k];
    }
  }

  /** Cutting `s` at two positions and joining the three pieces gives `s` back. */
  lemma SliceThree(s: string, k: nat, n: nat)
    requires k + n <= |s|
    ensures s == s[..k] + s[k..k + n] + s[k + n..]
  {
    assert s[..k] + s[k..k + n] == s[..k + n];
    assert s[..k + n] + s[k + n..] == s;
  }

  /** `s` is its leading whitespace, then `Strip(s)`, then its trailing whitespace. */
  lemma StripSplits(s: string)
    ensures var k := |s| - |TrimLeft(s)|;
      && k + |Strip(s)| <= |s|
      && s == s[..k] + Strip(s) + s[k + |Strip(s)|..]
  {
    StripIsPadding(s);
    SliceThree(s, |s| - |TrimLeft(s)|, |Strip(s)|);
  }

  /** A string that neither starts nor ends with whitespace is its own strip. */
  lemma StripUnpadded(s: string)
    requires s != [] && !IsSpace(s[0]) && !IsSpace(s[|s| - 1])
    ensures Strip(s) == s
  {
    assert TrimLeft(s) == s;
  }

  /** Whitespace around a string that neither starts nor ends with whitespace is what `strip()` removes. */
  lemma {:induction false} StripPadded(pre: string, w: string, post: string)
    requires w != [] && !IsSpace(w[0]) && !IsSpace(w[|w| - 1])
    requires forall i :: 0 <= i < |pre| ==> IsSpace(pre[i])
    requires forall i :: 0 <= i < |post| ==> IsSpace(post[i])
    ensures Strip(pre + w + post) == w
    decreases |pre| + |post|
  {
    if pre != [] {
      assert (pre + w + post)[1..] == pre[1..] + w + post;
      StripPadded(pre[1..], w, post);
    } else if post != [] {
      assert pre + w + post == w + post;
      var s := w + post;
      assert TrimLeft(s) == s;
      assert s[..|s| - 1] == w + post[..|post| - 1];
      StripPadded(pre, w, post[..|post| - 1]);
      assert TrimLeft(w + post[..|post| - 1]) == w + post[..|post| - 1];
    } else {
      assert pre + w + post == w;
      StripUnpadded(w);
    }
  }

  predicate IsUpper(c: char) { 'A' <= c <= 'Z' }

  /** ASCII `lower()` of one character. */
  function ToLower(c: char): (d: char)
    ensures !IsUpper(d)
    ensures !IsUpper(c) ==> d == c
  {
    if IsUpper(c) then (c as int + 32) as char else c
  }

  /** No upper-case letter occurs in `s`. */
  predicate IsLowerCase(s: string) {
    forall i :: 0 <= i < |s| ==> !IsUpper(s[i])
  }

  /** `lower()` leaves a lower-case string unchanged. */
  lemma LowerOfLowerCase(s: string)
    requires IsLowerCase(s)
    ensures Lower(s) == s
  {
  }

  /** ASCII `str.lower()`. */
  function Lower(s: string): (r: string)
    ensures |r| == |s|
    ensures forall i :: 0 <= i < |s| ==> r[i] == ToLower(s[i])
  {
    seq(|s|, i requires 0 <= i < |s| => ToLower(s[i]))
  }

  predicate IsDigit(c: char) { '0' <= c <= '9' }

  /** ASCII `str.isdigit()`: non-empty and made of digits only. */
  predicate IsDigitString(s: string) {
    |s| > 0 && forall i :: 0 <= i < |s| ==> IsDigit(s[i])
  }

  /** The value of one decimal digit. */
  function DigitValue(c: char): (v: nat)
    requires IsDigit(c)
    ensures v < 10
  {
    c as int - '0' as int
  }

  /** The decimal value of a string of digits, as `int()` reads it (leading zeros allowed). */
  function DigitsValue(s: string): nat
    requires forall i :: 0 <= i < |s| ==> IsDigit(s[i])
  {
    if s == [] then 0 else DigitsValue(s[..|s| - 1]) * 10 + DigitValue(s[|s| - 1])
  }

  /** `str(n)` for a natural number: its shortest decimal notation. */
  function DecimalString(n: nat): (r: string)
    ensures IsDigitString(r)
    ensures |r| > 1 ==> r[0] != '0'
  {
    var d := ['0' + (n % 10) as char];
    if n < 10 then d else DecimalString(n / 10) + d
  }

  /** Reading back the decimal notation of `n` gives `n`. */
  lemma {:induction false} DecimalStringRoundTrip(n: nat)
    ensures DigitsValue(DecimalString(n)) == n
  {
    var s := DecimalString(n);
    if n >= 10 {
      DecimalStringRoundTrip(n / 10);
      assert s[..|s| - 1] == DecimalString(n / 10);
    }
  }

  /** `s` starts with `p`. */
  predicate StartsWith(s: string, p: string) {
    |p| <= |s| && s[..|p|] == p
  }

  /** Python's substring test `p in s`, tried at each position from the left. */
  predicate Contains(s: string, p: string)
    decreases |s|
  {
    StartsWith(s, p) || (|s| > 0 && Contains(s[1..], p))
  }

  /** `p` occurs in `s` at offset `k`. */
  predicate OccursAt(s: string, p: string, k: int) {
    0 <= k && k + |p| <= |s| && s[k..k + |p|] == p
  }

  /** `p in s` holds exactly when `p` occurs at some offset of `s`. */
  lemma {:induction false} ContainsIff(s: string, p: string)
    ensures Contains(s, p) <==> exists k :: OccursAt(s, p, k)
    decreases |s|
  {
    if StartsWith(s, p) {
      assert OccursAt(s, p, 0);
    }
    if |s| > 0 {
      ContainsIff(s[1..], p);
      if exists k :: OccursAt(s, p, k) {
        var k :| OccursAt(s, p, k);
        if k > 0 {
          assert s[1..][k - 1..k - 1 + |p|] == s[k..k + |p|];
          assert OccursAt(s[1..], p, k - 1);
        }
      }
      if Contains(s[1..], p) {
        var k :| OccursAt(s[1..], p, k);
        assert s[k + 1..k + 1 + |p|] == s[1..][k..k + |p|];
        assert OccursAt(s, p, k + 1);
      }
    } else {
      if exists k :: OccursAt(s, p, k) {
        var k :| OccursAt(s, p, k);
        assert p == [];
      }
    }
  }

  /** Substring is transitive: if `q` occurs in `p` and `p` occurs in `s`, then `q` occurs in `s`. */
  lemma ContainsTransitive(s: string, p: string, q: string)
    requires Contains(s, p) && Contains(p, q)
    ensures Contains(s, q)
  {
    ContainsIff(s, p);
    ContainsIff(p, q);
    var k :| OccursAt(s, p, k);
    var j :| OccursAt(p, q, j);
    forall i | 0 <= i < |q| ensures s[k + j + i] == q[i] {
      assert s[k + j + i] == s[k..k + |p|][j + i];
    }
    assert s[k + j..k + j + |q|] == q;
    assert OccursAt(s, q, k + j);
    ContainsIff(s, q);
  }

  /** Python's `sep.join(parts)`. */
  function Join(parts: seq<string>, sep: string): string {
    if |parts| == 0 then ""
    else if |parts| == 1 then parts[0]
    else parts[0] + sep + Join(parts[1..], sep)
  }

  /** How often `c` occurs in `s`. */
  function CountChar(s: string, c: char): nat {
    if s == [] then 0 else (if s[0] == c then 1 else 0) + CountChar(s[1..], c)
  }

  lemma {:induction false} CountCharConcat(a: string, b: string, c: char)
    ensures CountChar(a + b, c) == CountChar(a, c) + CountChar(b, c)
  {
    if a != [] {
      assert (a + b)[0] == a[0];
      assert (a + b)[1..] == a[1..] + b;
      CountCharConcat(a[1..], b, c);
    } else {
      assert a + b == b;
    }
  }

  /** Joining with a separator free of `c` adds up the counts of `c` in the parts. */
  lemma {:induction false} CountCharJoin(parts: seq<string>, sep: string, c: char, each: nat)
    requires CountChar(sep, c) == 0
    requires forall i :: 0 <= i < |parts| ==> CountChar(parts[i], c) == each
    ensures CountChar(Join(parts, sep), c) == |parts| * each
  {
    if |parts| > 1 {
      var rest := parts[1..];
      assert forall i :: 0 <= i < |rest| ==> rest[i] == parts[i + 1];
      CountCharJoin(rest, sep, c, each);
      assert Join(parts, sep) == parts[0] + sep + Join(rest, sep);
      CountCharConcat(parts[0], sep, c);
      CountCharConcat(parts[0] + sep, Join(rest, sep), c);
      calc {
        |parts| * each;
        (|rest| + 1) * each;
        |rest| * each + each;
      }
    }
  }
}
