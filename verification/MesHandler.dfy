/**
 mes_handler.c: the text of an AI result, printed with printf by one side and searched with strstr,
 strchr and atoi by the other. Text is made of the characters 1 to 255, as in a C string.
 */
module MesHandler {
  import opened Bytes
  import opened Tlv
  import opened Options

  const MES_JSON_MAX := 512

  /** The characters of a C string. */
  predicate IsText(s: string) {
    forall i :: 0 <= i < |s| ==> 0 < s[i] as nat < 256
  }

  // ---- numbers as text ----

  function Digit(d: nat): char
    requires d < 10
  {
    (48 + d) as char
  }

  predicate IsDigit(c: char) {
    '0' <= c <= '9'
  }

  /** %u */
  function Decimal(n: nat): (s: string)
    ensures s != "" && forall i :: 0 <= i < |s| ==> IsDigit(s[i])
  {
    if n < 10 then [Digit(n)] else Decimal(n / 10) + [Digit(n % 10)]
  }

  /** %d */
  function Signed(n: int): string {
    if n < 0 then "-" + Decimal(-n) else Decimal(n)
  }

  function ReadDigits(s: string, acc: nat): nat {
    if s == "" || !IsDigit(s[0]) then acc else ReadDigits(s[1..], acc * 10 + (s[0] as nat - 48))
  }

  predicate IsSpace(c: char) {
    c == ' ' || '\t' <= c <= '\r'
  }

  function SkipSpaces(s: string): string {
    if s != "" && IsSpace(s[0]) then SkipSpaces(s[1..]) else s
  }

  /** atoi, where the number fits an int. */
  function Atoi(s: string): int {
    var t := SkipSpaces(s);
    if t != "" && t[0] == '-' then -(ReadDigits(t[1..], 0) as int)
    else if t != "" && t[0] == '+' then ReadDigits(t[1..], 0)
    else ReadDigits(t, 0)
  }

  lemma {:induction false} ReadDecimal(n: nat, rest: string)
    ensures ReadDigits(Decimal(n) + rest, 0) == ReadDigits(rest, n)
    decreases n
  {
    if n < 10 {
      assert (Decimal(n) + rest)[1..] == rest;
    } else {
      var tail := [Digit(n % 10)] + rest;
      ReadDecimal(n / 10, tail);
      assert Decimal(n) + rest == Decimal(n / 10) + tail;
      assert tail[1..] == rest;
    }
  }

  /** The number that a row of digits stands for, the last digit counting ones. */
  function Value10(s: string): int {
    if s == "" then 0 else 10 * Value10(s[..|s| - 1]) + (s[|s| - 1] as int - '0' as int)
  }

  lemma {:induction false} DecimalValue(n: nat)
    ensures Value10(Decimal(n)) == n
    decreases n
  {
    if n < 10 {
      assert [Digit(n)][..0] == "";
    } else {
      DecimalValue(n / 10);
      Value10Snoc(Decimal(n / 10), Digit(n % 10));
    }
  }

  lemma Value10Snoc(s: string, c: char)
    ensures Value10(s + [c]) == 10 * Value10(s) + (c as int - '0' as int)
  {
    assert (s + [c])[..|s|] == s;
  }

  lemma {:induction false} NoZeroInFront(n: nat)
    requires n > 0
    ensures Decimal(n)[0] != '0'
    decreases n
  {
    if n < 10 {
    } else {
      NoZeroInFront(n / 10);
    }
  }

  /** Decimal is the usual numeral: digits, no zero in front of others, and the right value. */
  lemma DecimalIsUsual(n: nat)
    ensures var s := Decimal(n);
            && |s| >= 1 && (forall i :: 0 <= i < |s| ==> '0' <= s[i] <= '9')
            && (n > 0 ==> s[0] != '0') && (n == 0 ==> s == "0") && Value10(s) == n
  {
    DecimalValue(n);
    if n > 0 {
      NoZeroInFront(n);
    }
  }

  /** atoi undoes %d, up to one space in front and anything but a digit behind. */
  lemma AtoiOfSigned(n: int, rest: string)
    requires rest != "" ==> !IsDigit(rest[0])
    ensures Atoi(Signed(n) + rest) == n && Atoi(" " + Signed(n) + rest) == n
  {
    var s := Signed(n) + rest;
    SignedIsRead(n, rest);
    assert (" " + Signed(n) + rest)[1..] == s;
    assert SkipSpaces(" " + Signed(n) + rest) == SkipSpaces(s) == s;
  }

  lemma SignedIsRead(n: int, rest: string)
    requires rest != "" ==> !IsDigit(rest[0])
    ensures var s := Signed(n) + rest; !IsSpace(s[0]) && SkipSpaces(s) == s && Atoi(s) == n
  {
    DecimalIsRead(if n < 0 then -n else n, rest);
    if n < 0 {
      ConcatAssociative("-", Decimal(-n), rest);
      MinusIsRead(Decimal(-n) + rest);
    } else {
      DigitIsRead(Decimal(n) + rest);
    }
  }

  lemma DecimalIsRead(n: nat, rest: string)
    requires rest != "" ==> !IsDigit(rest[0])
    ensures var s := Decimal(n) + rest; IsDigit(s[0]) && ReadDigits(s, 0) == n
  {
    ReadDecimal(n, rest);
  }

  lemma DigitIsRead(s: string)
    requires s != "" && IsDigit(s[0])
    ensures SkipSpaces(s) == s && Atoi(s) == ReadDigits(s, 0)
  {
  }

  lemma MinusIsRead(t: string)
    ensures var s := "-" + t;
            s[0] == '-' && SkipSpaces(s) == s && Atoi(s) == -(ReadDigits(t, 0) as int)
  {
    assert ("-" + t)[1..] == t;
  }

  // ---- any number as text ----

  predicate AllDigits(s: string) {
    forall i :: 0 <= i < |s| ==> '0' <= s[i] <= '9'
  }

  predicate AllSpaces(s: string) {
    forall i :: 0 <= i < |s| ==> s[i] == ' ' || 9 <= s[i] as int <= 13
  }

  /** The value of the digits s when acc stands in front of them. */
  function Behind(acc: nat, s: string): int {
    if s == "" then acc else 10 * Behind(acc, s[..|s| - 1]) + (s[|s| - 1] as int - '0' as int)
  }

  lemma {:induction false} BehindFirst(acc: nat, s: string)
    requires s != "" && AllDigits(s)
    ensures Behind(acc, s) == Behind(acc * 10 + (s[0] as nat - 48), s[1..])
    decreases |s|
  {
    var init := s[..|s| - 1];
    if init == "" {
      assert s[1..] == "";
    } else {
      BehindFirst(acc, init);
      assert s[1..][..|s[1..]| - 1] == init[1..];
    }
  }

  lemma {:induction false} BehindNothing(s: string)
    ensures Behind(0, s) == Value10(s)
  {
    if s == "" {
    } else {
      BehindNothing(s[..|s| - 1]);
    }
  }

  lemma {:induction false} DigitsRead(acc: nat, s: string, rest: string)
    requires AllDigits(s) && (rest != "" ==> !('0' <= rest[0] <= '9'))
    ensures ReadDigits(s + rest, acc) == Behind(acc, s)
    decreases |s|
  {
    if s == "" {
      assert s + rest == rest;
    } else {
      BehindFirst(acc, s);
      DigitsRead(acc * 10 + (s[0] as nat - 48), s[1..], rest);
      assert (s + rest)[1..] == s[1..] + rest;
    }
  }

  lemma {:induction false} SpacesSkipped(spaces: string, rest: string)
    requires AllSpaces(spaces) && (rest != "" ==> rest[0] != ' ' && !(9 <= rest[0] as int <= 13))
    ensures SkipSpaces(spaces + rest) == rest
  {
    if spaces == "" {
      assert spaces + rest == rest;
    } else {
      SpacesSkipped(spaces[1..], rest);
      assert (spaces + rest)[1..] == spaces[1..] + rest;
    }
  }

  lemma SignedDigitsRead(sign: string, digits: string, rest: string)
    requires (sign == "" && digits != "") || sign == "-" || sign == "+"
    requires AllDigits(digits) && (rest != "" ==> !('0' <= rest[0] <= '9'))
    ensures var t := sign + (digits + rest);
            t != "" && t[0] != ' ' && !(9 <= t[0] as int <= 13)
            && Atoi(t) == if sign == "-" then -Value10(digits) else Value10(digits)
  {
    var t := sign + (digits + rest);
    DigitsRead(0, digits, rest);
    BehindNothing(digits);
    assert SkipSpaces(t) == t;
    if sign == "" {
      assert t == digits + rest && t[0] == digits[0];
    } else {
      assert t[1..] == digits + rest;
    }
  }

  /** atoi reads any spaces, a sign or none, and digits, and stops at whatever is no digit. */
  lemma AtoiReads(spaces: string, sign: string, digits: string, rest: string)
    requires AllSpaces(spaces) && AllDigits(digits) && (rest != "" ==> !('0' <= rest[0] <= '9'))
    requires (sign == "" && digits != "") || sign == "-" || sign == "+"
    ensures Atoi(spaces + (sign + (digits + rest))) == if sign == "-" then -Value10(digits) else Value10(digits)
  {
    SignedDigitsRead(sign, digits, rest);
    var t := sign + (digits + rest);
    SpacesSkipped(spaces, t);
    SpacesSkipped("", t);
    assert "" + t == t;
  }

  // ---- searching ----

  predicate At(hay: string, needle: string, i: nat) {
    i + |needle| <= |hay| && hay[i..i + |needle|] == needle
  }

  /** strstr: the first place at or after i, or -1. */
  function FindFrom(hay: string, needle: string, i: nat): (r: int)
    requires i <= |hay|
    ensures r == -1 || i <= r <= |hay|
    ensures r >= 0 ==> At(hay, needle, r)
    ensures forall j :: i <= j < (if r >= 0 then r else |hay| + 1) ==> !At(hay, needle, j)
    decreases |hay| - i
  {
    if At(hay, needle, i) then i else if i == |hay| then -1 else FindFrom(hay, needle, i + 1)
  }

  function Find(hay: string, needle: string): (r: int)
    ensures r == -1 || 0 <= r <= |hay|
    ensures r >= 0 ==> At(hay, needle, r)
    ensures forall j :: 0 <= j < (if r >= 0 then r else |hay| + 1) ==> !At(hay, needle, j)
  {
    FindFrom(hay, needle, 0)
  }

  lemma FoundFirst(hay: string, needle: string, i: nat)
    requires At(hay, needle, i) && forall j :: 0 <= j < i ==> !At(hay, needle, j)
    ensures Find(hay, needle) == i
  {
  }

  // ---- text and bytes ----

  function BytesOf(t: string): (v: seq<byte>)
    ensures |v| == |t| && forall i :: 0 <= i < |t| ==> v[i] == t[i] as nat % 256
  {
    seq(|t|, i requires 0 <= i < |t| => t[i] as nat % 256)
  }

  /** The C string at the front of some bytes: everything before the first zero. */
  function CString(v: seq<byte>): (t: string)
    ensures |t| <= |v|
  {
    if v == [] || v[0] == 0 then "" else [v[0] as char] + CString(v[1..])
  }

  /** What mes_parse_ai_result searches: a copy of at most MES_JSON_MAX bytes. */
  function Searched(v: seq<byte>): (t: string)
    ensures |t| <= MES_JSON_MAX
  {
    CString(v[..if |v| < MES_JSON_MAX then |v| else MES_JSON_MAX])
  }

  lemma {:induction false} CStringIs(v: seq<byte>)
    ensures var t := CString(v);
            && (|t| < |v| ==> v[|t|] == 0)
            && forall i :: 0 <= i < |t| ==> v[i] != 0 && t[i] as int == v[i]
  {
    if v == [] || v[0] == 0 {
    } else {
      CStringIs(v[1..]);
      assert CString(v) == [v[0] as char] + CString(v[1..]);
    }
  }

  /** What is searched are the bytes before the first zero, and at most 512 of them. */
  lemma SearchedIs(v: seq<byte>)
    ensures var t := Searched(v);
            && |t| <= |v| && |t| <= 512 && (|t| < |v| && |t| < 512 ==> v[|t|] == 0)
            && forall i :: 0 <= i < |t| ==> v[i] != 0 && t[i] as int == v[i]
  {
    CStringIs(v[..if |v| < 512 then |v| else 512]);
  }

  lemma {:induction false} CStringOfText(t: string)
    requires IsText(t)
    ensures CString(BytesOf(t)) == t
    decreases |t|
  {
    if t == "" {
    } else {
      CStringOfText(t[1..]);
      assert BytesOf(t)[1..] == BytesOf(t[1..]);
    }
  }

  lemma SearchedText(t: string)
    requires IsText(t)
    ensures Searched(BytesOf(t)) == t[..if |t| < MES_JSON_MAX then |t| else MES_JSON_MAX]
  {
    var n := if |t| < MES_JSON_MAX then |t| else MES_JSON_MAX;
    CStringOfText(t[..n]);
    assert BytesOf(t)[..n] == BytesOf(t[..n]);
  }

  // ---- parsing ----

  const DEFECT_KEY := "\"defect\":"
  const TYPE_KEY := "\"type\":\""
  const CONF_KEY := "\"conf\":"

  function DefectIn(t: string): int {
    var p := Find(t, DEFECT_KEY);
    if p >= 0 then Atoi(t[p + 9..]) else 0
  }

  function TypeIn(t: string): Option<string> {
    var p := Find(t, TYPE_KEY);
    if p < 0 then None else
    var end := Find(t[p + 8..], "\"");
    if end < 0 then None else Some(t[p + 8..p + 8 + end])
  }

  /** The text that atof is given. */
  function ConfIn(t: string): Option<string> {
    var p := Find(t, CONF_KEY);
    if p < 0 then None else Some(t[p + 7..])
  }

  /** What the caller's type buffer holds afterwards. */
  ghost predicate TypeStored(t: string, before: seq<char>, after: seq<char>)
    requires 1 <= |before| == |after|
  {
    match TypeIn(t)
    case None => after == before
    case Some(s) =>
      var n := if |s| < |before| - 1 then |s| else |before| - 1;
      after == s[..n] + ['\0'] + before[n + 1..]
  }

  /** The largest size_t. */
  const SIZE_MAX := 0xFFFF_FFFF

  lemma TypeCopied(buf: string, at: nat, end: nat, n: nat)
    requires at == Find(buf, TYPE_KEY) && end == Find(buf[at + 8..], "\"") && n <= end
    ensures TypeIn(buf).Some? && |TypeIn(buf).value| == end && buf[at + 8..][..n] == TypeIn(buf).value[..n]
  {
  }

  method CopyText(s: string, n: nat, a: array<char>)
    requires n <= |s| && n < a.Length
    modifies a
    ensures a[..] == s[..n] + ['\0'] + old(a[..])[n + 1..]
  {
    forall i | 0 <= i < n {
      a[i] := s[i];
    }
    a[n] := '\0';
  }

  /**
   The copy of the type. With a buffer of size zero the room left for text, the size less one, wraps
   to the largest number; overrun says that the program then writes outside the buffer.
   */
  method StoreType(buf: string, defectType: array<char>) returns (overrun: bool)
    requires |buf| <= MES_JSON_MAX
    modifies defectType
    ensures overrun <==> defectType.Length == 0 && TypeIn(buf).Some?
    ensures defectType.Length > 0 ==> TypeStored(buf, old(defectType[..]), defectType[..])
  {
    overrun := false;
    var p := Find(buf, TYPE_KEY);
    if p >= 0 {
      var s := buf[p + 8..];
      var end := Find(s, "\"");
      if end >= 0 {
        var room := if defectType.Length == 0 then SIZE_MAX else defectType.Length - 1;
        var size := if end < room then end else room;
        TypeCopied(buf, p, end, size);
        if size >= defectType.Length {
          return true;
        }
        CopyText(s, size, defectType);
      }
    }
  }

  /**
   mes_parse_ai_result: the type is cut to fit the caller's buffer and ended with a zero,
   and the buffer is left alone when no type is found.
   */
  method ParseAiResult(value: Value, defectType: array<char>)
    returns (hasDefect: int, conf: Option<string>, overrun: bool)
    modifies defectType
    ensures hasDefect == DefectIn(Searched(value)) && conf == ConfIn(Searched(value))
    ensures overrun <==> defectType.Length == 0 && TypeIn(Searched(value)).Some?
    ensures defectType.Length > 0 ==> TypeStored(Searched(value), old(defectType[..]), defectType[..])
  {
    var buf := Searched(value);
    var p := Find(buf, DEFECT_KEY);
    hasDefect := 0;
    if p >= 0 {
      hasDefect := Atoi(buf[p + 9..]);
    }
    overrun := StoreType(buf, defectType);
    p := Find(buf, CONF_KEY);
    conf := None;
    if p >= 0 {
      conf := Some(buf[p + 7..]);
    }
  }
}
