/**
 * The decisions `main` takes on the answers typed at its prompts: the host
 * and port defaults, the required user name, and the final confirmation.
 * Reading the answers, printing and exiting are not modelled.
 */
module Prompts {
  import opened Wrappers
  import opened Text

  const DefaultHost: string := "localhost"
  const DefaultPort: int := 3306

  /** The answers that let the anonymization proceed, after `strip().lower()`. */
  const YesWords: seq<string> := ["ja", "j", "yes", "y"]

  /** A run of digits in which single underscores may separate digits, as Python's `int()` accepts. */
  predicate IsDigitGroups(b: string) {
    |b| > 0 && IsDigit(b[0]) && forall i :: 0 <= i < |b| ==> GroupChar(b, i)
  }

  /** Position `i` of `b` holds a digit, or an underscore that a digit follows. */
  predicate GroupChar(b: string, i: nat)
    requires i < |b|
  {
    IsDigit(b[i]) || (b[i] == '_' && i + 1 < |b| && IsDigit(b[i + 1]))
  }

  /** Digit groups consist of digits and underscores only. */
  lemma DigitGroupsChars(b: string)
    requires IsDigitGroups(b)
    ensures forall i :: 0 <= i < |b| ==> IsDigit(b[i]) || b[i] == '_'
  {
    forall i | 0 <= i < |b| ensures IsDigit(b[i]) || b[i] == '_' {
      assert GroupChar(b, i);
    }
  }

  /** A plain digit string is a single digit group that removing underscores leaves alone. */
  lemma DigitStringIsGroups(s: string)
    requires IsDigitString(s)
    ensures IsDigitGroups(s) && DropUnderscores(s) == s
  {
  }

  /** `b` with its underscores removed. */
  function DropUnderscores(b: string): (r: string)
    requires forall i :: 0 <= i < |b| ==> IsDigit(b[i]) || b[i] == '_'
    ensures forall i :: 0 <= i < |r| ==> IsDigit(r[i])
    ensures (forall i :: 0 <= i < |b| ==> IsDigit(b[i])) ==> r == b
  {
    if b == [] then []
    else (if b[0] == '_' then [] else [b[0]]) + DropUnderscores(b[1..])
  }

  /** Python's `int()` on an already stripped string: an optional sign, then digit groups. */
  function ParseInt(s: string): (r: Option<int>)
    ensures r.Some? ==> s != []
  {
    var negative := |s| > 0 && s[0] == '-';
    var body := if |s| > 0 && (s[0] == '+' || s[0] == '-') then s[1..] else s;
    if IsDigitGroups(body) then
      DigitGroupsChars(body);
      var v: int := DigitsValue(DropUnderscores(body));
      Some(if negative then -v else v)
    else None
  }

  /** A digit string, leading zeros included, reads as its value, and with a sign as its value with that sign. */
  lemma ParseIntSigned(s: string)
    requires IsDigitString(s)
    ensures ParseInt(s) == Some(DigitsValue(s))
    ensures ParseInt("-" + s) == Some(-(DigitsValue(s) as int))
    ensures ParseInt("+" + s) == Some(DigitsValue(s))
  {
    DigitStringIsGroups(s);
    assert s[0] != '-' && s[0] != '+';
    assert ("-" + s)[0] == '-' && ("-" + s)[1..] == s;
    assert ("+" + s)[0] == '+' && ("+" + s)[1..] == s;
  }

  /** `int("3306")` is 3306. */
  lemma ParseDefaultPort()
    ensures ParseInt("3306") == Some(DefaultPort)
  {
    DefaultPortDigits();
    ParseIntSigned("3306");
  }

  /** `"3306"` is a digit string of value 3306. */
  lemma DefaultPortDigits()
    ensures IsDigitString("3306") && DigitsValue("3306") == 3306
  {
    var s := "3306";
    assert s[..3] == "330" && s[..3][..2] == "33" && s[..3][..2][..1] == "3";
    assert DigitsValue("3") == 3;
    assert DigitsValue("33") == 33;
    assert DigitsValue("330") == 330;
  }

  /** `input("Host [localhost]: ").strip() or "localhost"`. */
  function ReadHost(answer: string): (host: string)
    ensures host != [] && !IsSpace(host[0]) && !IsSpace(host[|host| - 1])
    ensures Strip(answer) != [] ==> host == Strip(answer)
    ensures Strip(answer) == [] ==> host == DefaultHost
  {
    var h := Strip(answer);
    if h == [] then DefaultHost else h
  }

  /**
   * The port: the stripped answer, or `"3306"` when it is empty, read with
   * `int()`; an answer `int()` refuses falls back to 3306. No range check
   * follows, so a negative or out-of-range number is kept.
   */
  function ReadPort(answer: string): (port: int)
    ensures port == DefaultPort || ParseInt(Strip(answer)) == Some(port)
    ensures Strip(answer) != [] && ParseInt(Strip(answer)).Some? ==> port == ParseInt(Strip(answer)).value
  {
    var portStr := if Strip(answer) == [] then "3306" else Strip(answer);
    ParseDefaultPort();
    match ParseInt(portStr)
    case Some(v) => v
    case None => DefaultPort
  }

  /** An empty answer selects port 3306. */
  lemma PortDefault(answer: string)
    requires Strip(answer) == []
    ensures ReadPort(answer) == DefaultPort
  {
    ParseDefaultPort();
  }

  /** A digit answer selects the port it spells; no range check follows. */
  lemma PortOfDigits(answer: string)
    requires IsDigitString(Strip(answer))
    ensures ReadPort(answer) == DigitsValue(Strip(answer))
  {
    DigitStringIsGroups(Strip(answer));
  }

  /** The port `n`, typed in decimal, is the port used, for every natural `n`. */
  lemma PortRoundTrip(n: nat)
    ensures ReadPort(DecimalString(n)) == n
  {
    var s := DecimalString(n);
    StripUnpadded(s);
    ParseIntSigned(DecimalString(n));
    DecimalStringRoundTrip(n);
  }

  /** A non-empty answer that `int()` refuses falls back to 3306. */
  lemma PortRefused(answer: string)
    requires Strip(answer) != [] && ParseInt(Strip(answer)).None?
    ensures ReadPort(answer) == DefaultPort
  {
  }

  /** `int()` refuses a string holding a character other than a digit, an underscore or a leading sign. */
  lemma ParseIntRejects(s: string, i: nat)
    requires i < |s| && !IsDigit(s[i]) && s[i] != '_'
    requires i == 0 ==> s[0] != '+' && s[0] != '-'
    ensures ParseInt(s).None?
  {
    var off := if s[0] == '+' || s[0] == '-' then 1 else 0;
    var body := s[off..];
    assert body[i - off] == s[i];
    assert !GroupChar(body, i - off);
  }

  /** Removing underscores distributes over concatenation. */
  lemma {:induction false} DropUnderscoresAppend(a: string, b: string)
    requires forall i :: 0 <= i < |a| ==> IsDigit(a[i]) || a[i] == '_'
    requires forall i :: 0 <= i < |b| ==> IsDigit(b[i]) || b[i] == '_'
    ensures forall i :: 0 <= i < |a + b| ==> IsDigit((a + b)[i]) || (a + b)[i] == '_'
    ensures DropUnderscores(a + b) == DropUnderscores(a) + DropUnderscores(b)
  {
    if a != [] {
      assert (a + b)[0] == a[0];
      assert (a + b)[1..] == a[1..] + b;
      DropUnderscoresAppend(a[1..], b);
    } else {
      assert a + b == b;
    }
  }

  /** Two runs of digits joined by one underscore form digit groups. */
  lemma UnderscoreJoinsGroups(a: string, b: string)
    requires IsDigitString(a) && IsDigitString(b)
    ensures IsDigitGroups(a + "_" + b)
  {
    var s := a + "_" + b;
    forall i | 0 <= i < |s| ensures GroupChar(s, i) {
      if i < |a| {
        assert s[i] == a[i];
      } else if i == |a| {
        assert s[i] == '_' && s[i + 1] == b[0];
      } else {
        assert s[i] == b[i - |a| - 1];
      }
    }
    assert s[0] == a[0];
  }

  /** Removing the underscore between two runs of digits joins them. */
  lemma UnderscoreDropped(a: string, b: string)
    requires IsDigitString(a) && IsDigitString(b)
    ensures forall i :: 0 <= i < |a + "_" + b| ==> IsDigit((a + "_" + b)[i]) || (a + "_" + b)[i] == '_'
    ensures DropUnderscores(a + "_" + b) == a + b
  {
    DigitStringIsGroups(a);
    DigitStringIsGroups(b);
    assert DropUnderscores("_") == [];
    DropUnderscoresAppend(a, "_");
    DropUnderscoresAppend(a + "_", b);
  }

  /** One underscore between two runs of digits is accepted and ignored, as `int()` does. */
  lemma ParseIntUnderscore(a: string, b: string)
    requires IsDigitString(a) && IsDigitString(b)
    ensures IsDigitString(a + b)
    ensures ParseInt(a + "_" + b) == Some(DigitsValue(a + b))
  {
    var s := a + "_" + b;
    assert s[0] == a[0];
    UnderscoreJoinsGroups(a, b);
    UnderscoreDropped(a, b);
  }

  /** A negative number is kept as the port: nothing checks the range. */
  lemma PortNegative(n: nat)
    ensures ReadPort("-" + DecimalString(n)) == -(n as int)
  {
    var s := "-" + DecimalString(n);
    assert s[0] == '-' && s[|s| - 1] == DecimalString(n)[|DecimalString(n)| - 1];
    StripUnpadded(s);
    ParseIntSigned(DecimalString(n));
    DecimalStringRoundTrip(n);
  }

  /** Why `main` stops before connecting. */
  datatype PromptError = UsernameRequired

  /** The connection parameters `main` hands to the anonymizer. */
  datatype Settings = Settings(host: string, port: int, user: string, password: string)

  /**
   * The answers to the four connection prompts: host and user name are
   * stripped; an empty user name stops the program; the password is taken
   * exactly as typed.
   */
  function ReadSettings(hostAnswer: string, portAnswer: string, userAnswer: string, password: string)
    : (r: Result<Settings, PromptError>)
    ensures r.Ok? <==> Strip(userAnswer) != []
    ensures r.Err? ==> r.error == UsernameRequired
    ensures r.Ok? ==> r.value == Settings(ReadHost(hostAnswer), ReadPort(portAnswer), Strip(userAnswer), password)
  {
    var user := Strip(userAnswer);
    if user == [] then Err(UsernameRequired)
    else Ok(Settings(ReadHost(hostAnswer), ReadPort(portAnswer), user, password))
  }

  /** `input("Fortfahren? (ja/nein): ").strip().lower() in ['ja', 'j', 'yes', 'y']`. */
  predicate Proceeds(answer: string) {
    Lower(Strip(answer)) in YesWords
  }

  /**
   * Only a yes-word, in some case and padded with whitespace, lets the run
   * proceed: the answer is whitespace, then a word whose lower case is in
   * `YesWords`, then whitespace.
   */
  lemma ProceedsOnlyOnYes(answer: string)
    requires Proceeds(answer)
    ensures var k := |answer| - |TrimLeft(answer)|; var word := Strip(answer);
      && k + |word| <= |answer|
      && answer == answer[..k] + word + answer[k + |word|..]
      && Lower(word) in YesWords
      && (forall i :: 0 <= i < k ==> IsSpace(answer[i]))
      && (forall i :: k + |word| <= i < |answer| ==> IsSpace(answer[i]))
  {
    StripIsPadding(answer);
    StripSplits(answer);
  }

  /** Any of the yes-words, in any case and with any surrounding whitespace, lets the run proceed. */
  lemma ProceedsOnYesWord(pre: string, word: string, post: string)
    requires Lower(word) in YesWords
    requires forall i :: 0 <= i < |pre| ==> IsSpace(pre[i])
    requires forall i :: 0 <= i < |post| ==> IsSpace(post[i])
    ensures Proceeds(pre + word + post)
  {
    var w := Lower(word);
    assert w == "ja" || w == "j" || w == "yes" || w == "y";
    assert !IsSpace(w[0]) && !IsSpace(w[|w| - 1]);
    assert ToLower(word[0]) == w[0] && ToLower(word[|word| - 1]) == w[|w| - 1];
    StripPadded(pre, word, post);
  }
}
