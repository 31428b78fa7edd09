/**
 The warning-thresholds text field of the settings window
 (crates/tray/src/bin/tray.rs): printing a list and parsing it back.
 */
module ThresholdText {
  import opened Common

  // ---- Decimal numbers --------------------------------------------------------------

  function Digit(d: int): char
    requires 0 <= d < 10
  {
    ['0', '1', '2', '3', '4', '5', '6', '7', '8', '9'][d]
  }

  predicate IsDigit(c: char) {
    '0' <= c <= '9'
  }

  function DigitValue(c: char): (d: int)
    requires IsDigit(c)
    ensures 0 <= d < 10
  {
    c as int - '0' as int
  }

  /** `to_string` of a non-negative integer. */
  function Print(n: nat): (s: string)
    ensures s != "" && forall i :: 0 <= i < |s| ==> IsDigit(s[i])
  {
    if n < 10 then [Digit(n)] else Print(n / 10) + [Digit(n % 10)]
  }

  /** The value of a string of digits. */
  function Value(s: string): nat
    requires forall i :: 0 <= i < |s| ==> IsDigit(s[i])
  {
    if s == "" then 0 else 10 * Value(s[..|s| - 1]) + DigitValue(s[|s| - 1])
  }

  lemma {:induction false} ValueOfPrint(n: nat)
    ensures Value(Print(n)) == n
  {
    if n < 10 {
      assert Print(n)[..0] == "";
    } else {
      ValueOfPrint(n / 10);
      assert Print(n)[..|Print(n)| - 1] == Print(n / 10);
    }
  }

  /** The digits after an optional plus sign. */
  function Unsigned(tok: string): string {
    if tok != "" && tok[0] == '+' then tok[1..] else tok
  }

  /** What `str::parse::<u32>` accepts. */
  predicate IsU32(tok: string) {
    var s := Unsigned(tok);
    s != "" && (forall i :: 0 <= i < |s| ==> IsDigit(s[i])) && Value(s) <= U32_MAX
  }

  /** `str::parse::<u32>`, digit by digit, stopping at overflow. */
  method ParseU32(tok: string) returns (r: Option<U32>)
    ensures r == if IsU32(tok) then Some(Value(Unsigned(tok))) else None
  {
    var s := Unsigned(tok);
    if s == "" {
      return None;
    }
    var n: nat := 0;
    var i := 0;
    while i < |s|
      invariant 0 <= i <= |s|
      invariant forall k :: 0 <= k < i ==> IsDigit(s[k])
      invariant n == Value(s[..i]) <= U32_MAX
    {
      if !IsDigit(s[i]) {
        return None;
      }
      assert s[..i + 1][..i] == s[..i];
      n := 10 * n + DigitValue(s[i]);
      i := i + 1;
      if n > U32_MAX {
        if forall k :: 0 <= k < |s| ==> IsDigit(s[k]) {
          ValueGrows(s, i);
        }
        return None;
      }
    }
    assert s[..i] == s;
    r := Some(n);
  }

  lemma {:induction false} ValueGrows(s: string, i: nat)
    requires i <= |s| && forall k :: 0 <= k < |s| ==> IsDigit(s[k])
    ensures Value(s[..i]) <= Value(s)
    decreases |s|
  {
    if i < |s| {
      ValueGrows(s[..|s| - 1], i);
      assert s[..|s| - 1][..i] == s[..i];
    } else {
      assert s[..i] == s;
    }
  }

  // ---- Tokens -----------------------------------------------------------------------

  /** `char::is_whitespace`. */
  predicate IsWhitespace(c: char) {
    var n := c as int;
    || 0x9 <= n <= 0xD || n == 0x20 || n == 0x85 || n == 0xA0 || n == 0x1680
    || 0x2000 <= n <= 0x200A || n == 0x2028 || n == 0x2029 || n == 0x202F || n == 0x205F || n == 0x3000
  }

  predicate IsSeparator(c: char) {
    c == ',' || IsWhitespace(c)
  }

  /** `str::split`: the pieces between separators, empty ones included. */
  function Split(text: string): (toks: seq<string>)
    ensures toks != []
  {
    if text == "" then [""]
    else
      var rest := Split(text[1..]);
      if IsSeparator(text[0]) then [""] + rest else [[text[0]] + rest[0]] + rest[1..]
  }

  predicate NoSeparator(tok: string) {
    forall i :: 0 <= i < |tok| ==> !IsSeparator(tok[i])
  }

  lemma {:induction false} SplitAtSeparator(tok: string, sep: char, more: string)
    requires NoSeparator(tok) && IsSeparator(sep)
    ensures Split(tok + [sep] + more) == [tok] + Split(more)
    decreases |tok|
  {
    var text := tok + [sep] + more;
    if tok == "" {
      assert text[1..] == more;
    } else {
      assert text[1..] == tok[1..] + [sep] + more;
      SplitAtSeparator(tok[1..], sep, more);
      assert [tok[0]] + tok[1..] == tok;
    }
  }

  lemma {:induction false} SplitWithoutSeparator(tok: string)
    requires NoSeparator(tok)
    ensures Split(tok) == [tok]
  {
    if tok != "" {
      SplitWithoutSeparator(tok[1..]);
      assert [tok[0]] + tok[1..] == tok;
    }
  }

  // ---- The field ------------------------------------------------------------------------

  /** What the tokens mean: empty ones are skipped, the first bad one is the error. */
  function ParseTokens(toks: seq<string>): Result<seq<U32>, string> {
    if toks == [] then Ok([])
    else if toks[0] == "" then ParseTokens(toks[1..])
    else if !IsU32(toks[0]) then Err(toks[0])
    else
      match ParseTokens(toks[1..])
      case Ok(ns) => Ok([Value(Unsigned(toks[0])) as U32] + ns)
      case Err(tok) => Err(tok)
  }

  function ParseText(text: string): Result<seq<U32>, string> {
    ParseTokens(Split(text))
  }

  /** The loop over the tokens; none holds whitespace, so trimming changes nothing. */
  method ParseThresholds(text: string) returns (r: Result<seq<U32>, string>)
    ensures r == ParseText(text)
  {
    var toks := Split(text);
    var out: seq<U32> := [];
    var i := 0;
    assert toks[0..] == toks;
    assert forall ns: seq<U32> :: out + ns == ns;
    while i < |toks|
      invariant 0 <= i <= |toks|
      invariant ParseText(text) == match ParseTokens(toks[i..])
                                   case Ok(ns) => Ok(out + ns)
                                   case Err(tok) => Err(tok)
    {
      var tok := toks[i];
      assert toks[i..][0] == tok && toks[i..][1..] == toks[i + 1..];
      if tok != "" {
        var n := ParseU32(tok);
        match n {
          case None =>
            return Err(tok);
          case Some(value) =>
            ghost var before := out;
            out := out + [value];
            assert forall ns: seq<U32> :: before + ([value] + ns) == out + ns;
        }
      }
      i := i + 1;
    }
    assert out + [] == out;
    r := Ok(out);
  }

  /** The field accepts a text exactly when every token that is not empty is a u32. */
  lemma {:induction false} AcceptedExactlyWhen(toks: seq<string>)
    ensures ParseTokens(toks).Ok? <==> forall i :: 0 <= i < |toks| && toks[i] != "" ==> IsU32(toks[i])
  {
    if toks != [] {
      AcceptedExactlyWhen(toks[1..]);
      assert forall i :: 0 < i < |toks| ==> toks[1..][i - 1] == toks[i];
    }
  }

  /** Saving takes what parses, and otherwise the empty list. */
  function Captured(text: string): seq<U32> {
    match ParseText(text)
    case Ok(ns) => ns
    case Err(_) => []
  }

  /** One token that does not parse silently discards every threshold. */
  lemma OneBadTokenDropsAll(text: string, i: nat)
    requires i < |Split(text)| && Split(text)[i] != "" && !IsU32(Split(text)[i])
    ensures Captured(text) == []
  {
    AcceptedExactlyWhen(Split(text));
  }

  /** The error names the first token that is no number. */
  lemma {:induction false} ErrorNamesFirstBadToken(toks: seq<string>)
    requires ParseTokens(toks).Err?
    ensures exists i :: 0 <= i < |toks| && toks[i] == ParseTokens(toks).error && toks[i] != "" && !IsU32(toks[i])
                        && forall j :: 0 <= j < i ==> toks[j] == "" || IsU32(toks[j])
  {
    if toks[0] == "" || IsU32(toks[0]) {
      ErrorNamesFirstBadToken(toks[1..]);
      var rest := toks[1..];
      var i :| 0 <= i < |rest| && rest[i] == ParseTokens(rest).error && rest[i] != "" && !IsU32(rest[i])
               && forall j :: 0 <= j < i ==> rest[j] == "" || IsU32(rest[j]);
      assert toks[i + 1] == rest[i];
      assert forall j :: 0 < j < i + 1 ==> toks[j] == rest[j - 1];
    }
  }

  /** The text the field starts with: the numbers, joined by a comma and a space. */
  function Printed(ns: seq<U32>): string {
    if ns == [] then ""
    else if |ns| == 1 then Print(ns[0])
    else Print(ns[0]) + ", " + Printed(ns[1..])
  }

  lemma PrintParses(n: U32)
    ensures NoSeparator(Print(n)) && IsU32(Print(n)) && Value(Unsigned(Print(n))) == n
  {
    ValueOfPrint(n);
    assert forall i :: 0 <= i < |Print(n)| ==> IsDigit(Print(n)[i]);
  }

  /** So `15`, or any number, is kept on its own, but not next to a mistyped `5m`. */
  lemma OneTypoDropsTheOthers(n: U32)
    ensures Captured(Print(n)) == [n] && Captured(Print(n) + " 5m") == []
  {
    assert NoSeparator(Print(n));
    SplitWithoutSeparator(Print(n));
    OneNumber(n);
    TypoAfter(Print(n));
  }

  /** Numbers may be separated by commas, blanks, tabs or line ends, but not by semicolons. */
  lemma SeparatorsAllowed(a: U32, b: U32, sep: char)
    ensures sep in {',', ' ', '\t', '\n', '\r'} ==> Captured(Print(a) + [sep] + Print(b)) == [a, b]
    ensures Captured(Print(a) + [';'] + Print(b)) == []
  {
    PrintParses(a);
    PrintParses(b);
    OneNumber(b);
    if sep in {',', ' ', '\t', '\n', '\r'} {
      SplitAtSeparator(Print(a), sep, Print(b));
      SplitWithoutSeparator(Print(b));
      TokenThenMore(Print(a), [Print(b)]);
      assert ParseTokens([Print(a)] + [Print(b)]) == Ok([a] + [b]);
    }
    var tok := Print(a) + [';'] + Print(b);
    assert NoSeparator(tok) by {
      assert forall i :: 0 <= i < |tok| ==> tok[i] == ';' || tok[i] in Print(a) || tok[i] in Print(b);
    }
    SplitWithoutSeparator(tok);
    NoNumberWith(tok, |Print(a)|);
    OneBadTokenDropsAll(tok, 0);
  }

  lemma NoNumberWith(tok: string, i: nat)
    requires 0 < i < |tok| && tok[i] == ';'
    ensures !IsU32(tok)
  {
    var s := Unsigned(tok);
    assert s[if s == tok then i else i - 1] == ';';
  }

  /** A plus sign is allowed, and a number that does not fit 32 bits is not. */
  lemma SignsAndSizes(n: nat)
    ensures n <= U32_MAX ==> Captured("+" + Print(n)) == [n]
    ensures n > U32_MAX ==> Captured(Print(n)) == []
  {
    ValueOfPrint(n);
    var signed := "+" + Print(n);
    assert signed[1..] == Print(n) && NoSeparator(Print(n)) && NoSeparator(signed);
    SplitWithoutSeparator(signed);
    SplitWithoutSeparator(Print(n));
    if n <= U32_MAX {
      assert IsU32(signed) && [signed][1..] == [] && [n] + [] == [n];
      assert ParseTokens([signed]) == Ok([n]);
    } else {
      assert Unsigned(Print(n)) == Print(n);
      OneBadTokenDropsAll(Print(n), 0);
    }
  }

  lemma OneNumber(n: U32)
    ensures ParseTokens([Print(n)]) == Ok([n])
  {
    PrintParses(n);
    assert [Print(n)][1..] == [] && [n] + [] == [n];
  }

  lemma TypoAfter(tok: string)
    requires NoSeparator(tok)
    ensures Captured(tok + " 5m") == []
  {
    SplitAtSeparator(tok, ' ', "5m");
    SplitWithoutSeparator("5m");
    assert tok + [' '] + "5m" == tok + " 5m";
    assert Split(tok + " 5m")[1] == "5m" && !IsDigit("5m"[1]);
    OneBadTokenDropsAll(tok + " 5m", 1);
  }

  lemma TokenThenMore(tok: string, toks: seq<string>)
    requires tok != "" && IsU32(tok) && ParseTokens(toks).Ok?
    ensures ParseTokens([tok, ""] + toks) == Ok([Value(Unsigned(tok)) as U32] + ParseTokens(toks).value)
  {
    assert ([tok, ""] + toks)[1..] == [""] + toks;
    assert ([""] + toks)[1..] == toks;
  }

  /** Parsing the printed field gives back any list of 32-bit numbers. */
  lemma {:induction false} TextRoundTrip(ns: seq<U32>)
    ensures ParseText(Printed(ns)) == Ok(ns)
    ensures Captured(Printed(ns)) == ns
    decreases |ns|
  {
    if ns == [] {
      assert Split("") == [""];
      assert [""][1..] == [];
    } else {
      var tok := Print(ns[0]);
      PrintParses(ns[0]);
      if |ns| == 1 {
        SplitWithoutSeparator(tok);
        assert [tok][1..] == [];
        assert ParseTokens([tok]) == Ok([ns[0]] + []);
        assert ns == [ns[0]] + [];
      } else {
        var more := Printed(ns[1..]);
        TextRoundTrip(ns[1..]);
        FirstTokenOf(tok, more);
        TokenThenMore(tok, Split(more));
        assert [ns[0]] + ns[1..] == ns;
      }
    }
  }

  lemma FirstTokenOf(tok: string, more: string)
    requires NoSeparator(tok)
    ensures Split(tok + ", " + more) == [tok, ""] + Split(more)
  {
    assert tok + ", " + more == tok + [','] + ([' '] + more);
    SplitAtSeparator(tok, ',', [' '] + more);
    assert [' '] + more == "" + [' '] + more;
    SplitAtSeparator("", ' ', more);
    assert [tok] + ([""] + Split(more)) == [tok, ""] + Split(more);
  }
}
