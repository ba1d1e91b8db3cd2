/** The two printers of AI results, in C and in Python, against the one parser in C. */
module AiResultText {
  import opened Bytes
  import opened Tlv
  import opened MesHandler
  import opened Options
  import T = TlvProtocol

  datatype Box = Box(x: int, y: int, w: int, h: int)

  function CBox(b: Box): string {
    Signed(b.x) + "," + Signed(b.y) + "," + Signed(b.w) + "," + Signed(b.h)
  }

  /** The format string of mes_pack_ai_result; conf is the text that %.2f makes of the confidence. */
  function CResult(defect: int, kind: string, conf: string, box: Box): string {
    COpening(defect) + (TYPE_KEY + (kind + CEnding(conf, box)))
  }

  function COpening(defect: int): string {
    "{" + (DEFECT_KEY + (Signed(defect) + ","))
  }

  function CEnding(conf: string, box: Box): string {
    "\"," + (CONF_KEY + CTail(conf, box))
  }

  function CTail(conf: string, box: Box): string {
    conf + (",\"bbox\":[" + CBox(box) + "]}")
  }

  predicate NoQuote(s: string) {
    forall i :: 0 <= i < |s| ==> s[i] != '"'
  }

  lemma AtChar(hay: string, needle: string, i: nat, k: nat)
    requires At(hay, needle, i) && k < |needle|
    ensures i + k < |hay| && hay[i + k] == needle[k]
  {
    assert hay[i..i + |needle|][k] == needle[k];
  }

  lemma NotAt(hay: string, needle: string, i: nat, k: nat)
    requires i + k < |hay| && k < |needle| && hay[i + k] != needle[k]
    ensures !At(hay, needle, i)
  {
    if At(hay, needle, i) {
      AtChar(hay, needle, i, k);
    }
  }

  lemma AtAfter(pre: string, needle: string, post: string)
    ensures At(pre + (needle + post), needle, |pre|)
  {
  }

  lemma SignedChars(n: int)
    ensures forall i :: 0 <= i < |Signed(n)| ==> Signed(n)[i] == '-' || IsDigit(Signed(n)[i])
  {
  }

  // ---- what the parser finds in any text ----

  /** The first place of the key in t. */
  predicate FirstAt(t: string, key: string, p: nat) {
    At(t, key, p) && forall j :: 0 <= j < p ==> !At(t, key, j)
  }

  predicate Nowhere(t: string, key: string) {
    forall j :: 0 <= j <= |t| ==> !At(t, key, j)
  }

  /** In every text, printed by anyone, flag and confidence are read behind the first of their keys. */
  lemma FieldsRead(t: string, p: nat)
    ensures FirstAt(t, "\"defect\":", p) ==> DefectIn(t) == Atoi(t[p + 9..])
    ensures Nowhere(t, "\"defect\":") ==> DefectIn(t) == 0
    ensures FirstAt(t, "\"conf\":", p) ==> ConfIn(t) == Some(t[p + 7..])
    ensures Nowhere(t, "\"conf\":") ==> ConfIn(t) == None
  {
    if FirstAt(t, DEFECT_KEY, p) {
      FoundFirst(t, DEFECT_KEY, p);
    }
    if FirstAt(t, CONF_KEY, p) {
      FoundFirst(t, CONF_KEY, p);
    }
  }

  /** The type reaches from behind the first of its keys to the next quote; without a quote there is none. */
  lemma TypeRead(t: string, p: nat, n: nat)
    requires FirstAt(t, "\"type\":\"", p)
    ensures NoQuote(t[p + 8..]) ==> TypeIn(t) == None
    ensures p + 8 + n < |t| && t[p + 8 + n] == '"' && NoQuote(t[p + 8..p + 8 + n]) ==>
              TypeIn(t) == Some(t[p + 8..p + 8 + n])
  {
    FoundFirst(t, TYPE_KEY, p);
    var s := t[p + 8..];
    if NoQuote(s) {
      NoQuoteNoEnd(s);
    }
    if n < |s| && s[n] == '"' && NoQuote(t[p + 8..p + 8 + n]) {
      assert s[..n] == t[p + 8..p + 8 + n];
      EndsAtQuote(s, n);
    }
  }

  lemma NoQuoteNoEnd(s: string)
    requires NoQuote(s)
    ensures Find(s, "\"") == -1
  {
    forall j | 0 <= j < |s| ensures !At(s, "\"", j) {
      NotAt(s, "\"", j, 0);
    }
  }

  lemma EndsAtQuote(s: string, n: nat)
    requires n < |s| && s[n] == '"' && NoQuote(s[..n])
    ensures Find(s, "\"") == n
  {
    assert s[n..n + 1] == "\"";
    forall j | 0 <= j < n ensures !At(s, "\"", j) {
      assert s[j] == s[..n][j];
      NotAt(s, "\"", j, 0);
    }
    FoundFirst(s, "\"", n);
  }

  // ---- where the keys are ----

  /** The quotes of the opening are the two of its key. */
  lemma OpeningQuotes(d: int, i: nat)
    requires i < |COpening(d)| && i != 1 && i != 8
    ensures COpening(d)[i] != '"'
  {
    SignedChars(d);
    var n := Signed(d);
    assert COpening(d) == "{\"defect\":" + n + ",";
    assert 10 <= i < 10 + |n| ==> COpening(d)[i] == n[i - 10];
  }

  lemma TypeFound(d: int, post: string)
    ensures Find(COpening(d) + (TYPE_KEY + post), TYPE_KEY) == |COpening(d)|
  {
    var a := COpening(d);
    var hay := a + (TYPE_KEY + post);
    AtAfter(a, TYPE_KEY, post);
    forall j | 0 <= j < |a| ensures !At(hay, TYPE_KEY, j) {
      if j == 1 || j == 8 {
        assert hay[2] == 'd' && hay[9] == ':';
        NotAt(hay, TYPE_KEY, j, 1);
      } else {
        OpeningQuotes(d, j);
        NotAt(hay, TYPE_KEY, j, 0);
      }
    }
    FoundFirst(hay, TYPE_KEY, |a|);
  }

  /** The conf key is not found early, even when the type is the word conf. */
  lemma ConfNotAtType(kind: string, post: string)
    requires NoQuote(kind)
    ensures !At("\"" + (kind + ("\"," + post)), CONF_KEY, 0)
  {
    var hay := "\"" + (kind + ("\"," + post));
    assert hay[1 + |kind|] == '"' && hay[2 + |kind|] == ',';
    if |kind| < 4 {
      NotAt(hay, CONF_KEY, 0, 1 + |kind|);
    } else if |kind| == 4 {
      NotAt(hay, CONF_KEY, 0, 6);
    } else {
      assert hay[5] == kind[4];
      NotAt(hay, CONF_KEY, 0, 5);
    }
  }

  lemma AtSuffix(pre: string, hay: string, needle: string, i: nat)
    ensures At(pre + hay, needle, |pre| + i) <==> At(hay, needle, i)
  {
    if i + |needle| <= |hay| {
      assert (pre + hay)[|pre| + i..|pre| + i + |needle|] == hay[i..i + |needle|];
    }
  }

  /** From the type's opening quote on, the first conf key is the intended one. */
  lemma ConfFoundInEnding(kind: string, post: string)
    requires NoQuote(kind)
    ensures Find("\"" + (kind + ("\"," + (CONF_KEY + post))), CONF_KEY) == |kind| + 3
  {
    var hay := "\"" + (kind + ("\"," + (CONF_KEY + post)));
    var pre := "\"" + kind + "\",";
    assert hay == pre + (CONF_KEY + post);
    AtAfter(pre, CONF_KEY, post);
    forall j | 0 <= j < |kind| + 3 ensures !At(hay, CONF_KEY, j) {
      if j == 0 {
        ConfNotAtType(kind, CONF_KEY + post);
      } else if j <= |kind| {
        assert hay[j] == kind[j - 1];
        NotAt(hay, CONF_KEY, j, 0);
      } else if j == |kind| + 1 {
        assert hay[j + 1] == ',';
        NotAt(hay, CONF_KEY, j, 1);
      } else {
        assert hay[j] == ',';
        NotAt(hay, CONF_KEY, j, 0);
      }
    }
    FoundFirst(hay, CONF_KEY, |kind| + 3);
  }

  lemma FindSkips(pre: string, hay: string, needle: string)
    requires forall j :: 0 <= j < |pre| ==> !At(pre + hay, needle, j)
    requires Find(hay, needle) >= 0
    ensures Find(pre + hay, needle) == |pre| + Find(hay, needle)
  {
    var r := Find(hay, needle);
    AtSuffix(pre, hay, needle, r);
    forall j | |pre| <= j < |pre| + r ensures !At(pre + hay, needle, j) {
      AtSuffix(pre, hay, needle, j - |pre|);
    }
    FoundFirst(pre + hay, needle, |pre| + r);
  }

  lemma NoConfBeforeType(d: int, hay: string)
    requires hay != "" && hay[0] == '"'
    ensures var all := COpening(d) + ("\"type\":" + hay);
            forall j :: 0 <= j < |COpening(d)| + 7 ==> !At(all, CONF_KEY, j)
  {
    var a := COpening(d);
    var all := a + ("\"type\":" + hay);
    forall j | 0 <= j < |a| + 7 ensures !At(all, CONF_KEY, j) {
      if j == 1 || j == 8 {
        assert all[2] == 'd' && all[9] == ':';
        NotAt(all, CONF_KEY, j, 1);
      } else if j < |a| {
        OpeningQuotes(d, j);
        NotAt(all, CONF_KEY, j, 0);
      } else {
        NoConfInTypeKey(a, hay, j - |a|);
      }
    }
  }

  lemma NoConfInTypeKey(a: string, hay: string, k: nat)
    requires k < 7
    ensures !At(a + ("\"type\":" + hay), CONF_KEY, |a| + k)
  {
    var tail := "\"type\":" + hay;
    AtSuffix(a, tail, CONF_KEY, k);
    assert tail[0] == '"' && tail[1] == 't' && tail[2] == 'y' && tail[3] == 'p';
    assert tail[4] == 'e' && tail[5] == '"' && tail[6] == ':';
    if k == 0 || k == 5 {
      NotAt(tail, CONF_KEY, k, 1);
    } else {
      NotAt(tail, CONF_KEY, k, 0);
    }
  }

  lemma ConfFound(d: int, kind: string, post: string)
    requires NoQuote(kind)
    ensures Find(COpening(d) + (TYPE_KEY + (kind + ("\"," + (CONF_KEY + post)))), CONF_KEY)
            == |COpening(d)| + 10 + |kind|
  {
    var a, rest := COpening(d), kind + ("\"," + (CONF_KEY + post));
    var pre, hay := a + "\"type\":", "\"" + rest;
    ConfFoundInEnding(kind, post);
    assert Find(hay, CONF_KEY) == |kind| + 3;
    NoConfBeforeType(d, hay);
    TypeKeySplits(a, rest);
    assert |pre| == |a| + 7;
    FindSkips(pre, hay, CONF_KEY);
  }

  lemma TypeKeySplits(a: string, rest: string)
    ensures a + (TYPE_KEY + rest) == (a + "\"type\":") + ("\"" + rest)
    ensures a + ("\"type\":" + ("\"" + rest)) == (a + "\"type\":") + ("\"" + rest)
  {
    var key, hay := "\"type\":", "\"" + rest;
    assert TYPE_KEY == key + "\"";
    assert TYPE_KEY + rest == key + hay;
    assert a + (key + hay) == (a + key) + hay;
  }

  lemma Dropped(a: string, b: string, c: string)
    ensures (a + (b + c))[|a| + |b|..] == c
  {
  }

  lemma QuoteFound(kind: string, post: string)
    requires NoQuote(kind)
    ensures Find(kind + ("\"" + post), "\"") == |kind|
  {
    var hay := kind + ("\"" + post);
    AtAfter(kind, "\"", post);
    forall j | 0 <= j < |kind| ensures !At(hay, "\"", j) {
      NotAt(hay, "\"", j, 0);
    }
    FoundFirst(hay, "\"", |kind|);
  }

  // ---- the C printer and the C parser ----

  /** mes_pack_ai_result: nothing is packed when the text does not fit in 511 characters. */
  method PackAiResult(defect: int, kind: string, conf: string, box: Box, frame: array<byte>) returns (total: nat)
    modifies frame
    ensures var t := CResult(defect, kind, conf, box);
            if |t| >= 512 || |t| + 4 > frame.Length
            then total == 0 && frame[..] == old(frame[..])
            else total == |t| + 4 && frame[..total] == Encode(Packet(AI_RESULT, BytesOf(t)))
  {
    var t := CResult(defect, kind, conf, box);
    if |t| >= MES_JSON_MAX {
      return 0;
    }
    total := T.TlvPack(AI_RESULT, BytesOf(t), frame);
  }

  lemma DefectParsed(defect: int, post: string)
    requires post != "" ==> !IsDigit(post[0])
    ensures DefectIn(COpening(defect) + post) == defect
  {
    var tail := Signed(defect) + ("," + post);
    OpeningSplits(defect, post);
    KeyInSecondPlace(tail);
    AtoiOfSigned(defect, "," + post);
  }

  lemma OpeningSplits(defect: int, post: string)
    ensures COpening(defect) + post == "{" + (DEFECT_KEY + (Signed(defect) + ("," + post)))
  {
    var n := Signed(defect);
    assert (n + ",") + post == n + ("," + post);
    assert (DEFECT_KEY + (n + ",")) + post == DEFECT_KEY + ((n + ",") + post);
  }

  lemma KeyInSecondPlace(post: string)
    ensures DefectIn("{" + (DEFECT_KEY + post)) == Atoi(post)
  {
    var hay := "{" + (DEFECT_KEY + post);
    AtAfter("{", DEFECT_KEY, post);
    NotAt(hay, DEFECT_KEY, 0, 0);
    FoundFirst(hay, DEFECT_KEY, 1);
    Dropped("{", DEFECT_KEY, post);
  }

  lemma TypeParsed(defect: int, kind: string, post: string)
    requires NoQuote(kind)
    ensures TypeIn(COpening(defect) + (TYPE_KEY + (kind + ("\"" + post)))) == Some(kind)
  {
    var a := COpening(defect);
    var t := a + (TYPE_KEY + (kind + ("\"" + post)));
    TypeFound(defect, kind + ("\"" + post));
    Dropped(a, TYPE_KEY, kind + ("\"" + post));
    QuoteFound(kind, post);
    TakenBetween(t, |a| + 8, kind, "\"" + post);
  }

  lemma TakenBetween(t: string, i: nat, b: string, c: string)
    requires i <= |t| && t[i..] == b + c
    ensures i + |b| <= |t| && t[i..i + |b|] == b
  {
    assert t[i..i + |b|] == t[i..][..|b|];
  }

  lemma ConfParsed(defect: int, kind: string, post: string)
    requires NoQuote(kind)
    ensures ConfIn(COpening(defect) + (TYPE_KEY + (kind + ("\"," + (CONF_KEY + post))))) == Some(post)
  {
    var a := COpening(defect);
    ConfFound(defect, kind, post);
    Dropped(a + (TYPE_KEY + (kind + "\",")), CONF_KEY, post);
    BeforeConf(a, kind, CONF_KEY + post);
  }

  lemma BeforeConf(a: string, kind: string, post: string)
    ensures a + (TYPE_KEY + (kind + ("\"," + post))) == a + (TYPE_KEY + (kind + "\",")) + post
    ensures |a + (TYPE_KEY + (kind + "\","))| == |a| + 10 + |kind|
  {
    var x := kind + "\",";
    assert kind + ("\"," + post) == x + post;
    assert TYPE_KEY + (x + post) == (TYPE_KEY + x) + post;
    assert a + ((TYPE_KEY + x) + post) == (a + (TYPE_KEY + x)) + post;
  }

  /** The parser undoes the printer: flag and type come back, and atof is given the confidence and a comma. */
  lemma PrinterAndParser(defect: int, kind: string, conf: string, box: Box)
    requires IsText(kind) && NoQuote(kind) && IsText(conf)
    requires |CResult(defect, kind, conf, box)| < 512
    ensures var t := Searched(BytesOf(CResult(defect, kind, conf, box)));
            && DefectIn(t) == defect
            && TypeIn(t) == Some(kind)
            && ConfIn(t) == Some(CTail(conf, box)) && conf + "," <= ConfIn(t).value
  {
    CResultIsText(defect, kind, conf, box);
    SearchedWhole(CResult(defect, kind, conf, box));
    ResultParsed(defect, kind, CTail(conf, box));
    CTailComma(conf, box);
  }

  lemma CTailComma(conf: string, box: Box)
    ensures conf + "," <= CTail(conf, box)
  {
    var rest := CBox(box) + "]}";
    ConcatAssociative(",\"bbox\":[", CBox(box), "]}");
    ConcatAssociative(",", "\"bbox\":[", rest);
    assert "," + "\"bbox\":[" == ",\"bbox\":[";
    ConcatAssociative(conf, ",", "\"bbox\":[" + rest);
  }

  /** The caller's buffer receives the type cut to its size less one, ended with a zero. */
  lemma TypeArrivesCut(defect: int, kind: string, conf: string, box: Box, before: seq<char>, after: seq<char>)
    requires IsText(kind) && NoQuote(kind) && IsText(conf)
    requires |CResult(defect, kind, conf, box)| < 512
    requires 1 <= |before| == |after|
    requires TypeStored(Searched(BytesOf(CResult(defect, kind, conf, box))), before, after)
    ensures var n := if |kind| < |before| then |kind| else |before| - 1;
            && after[..n] == kind[..n] && after[n] == '\0' && after[n + 1..] == before[n + 1..]
            && forall i :: 0 <= i < n ==> after[i] != '\0'
  {
    PrinterAndParser(defect, kind, conf, box);
    StoredIs(Searched(BytesOf(CResult(defect, kind, conf, box))), kind, before, after);
    StoredText(kind, if |kind| < |before| then |kind| else |before| - 1, before, after);
  }

  lemma StoredIs(t: string, kind: string, before: seq<char>, after: seq<char>)
    requires TypeIn(t) == Some(kind) && 1 <= |before| == |after| && TypeStored(t, before, after)
    ensures var n := if |kind| < |before| then |kind| else |before| - 1;
            after == kind[..n] + ['\0'] + before[n + 1..]
  {
  }

  lemma StoredText(kind: string, n: nat, before: seq<char>, after: seq<char>)
    requires IsText(kind) && n <= |kind| && n < |before|
    requires after == kind[..n] + ['\0'] + before[n + 1..]
    ensures after[..n] == kind[..n] && after[n] == '\0' && after[n + 1..] == before[n + 1..]
    ensures forall i :: 0 <= i < n ==> after[i] != '\0'
  {
    assert forall i :: 0 <= i < n ==> after[i] == kind[i];
  }

  lemma SearchedWhole(t: string)
    requires IsText(t) && |t| < MES_JSON_MAX
    ensures Searched(BytesOf(t)) == t
  {
    SearchedText(t);
    assert t[..|t|] == t;
  }

  lemma ResultParsed(defect: int, kind: string, tail: string)
    requires NoQuote(kind)
    ensures var t := COpening(defect) + (TYPE_KEY + (kind + ("\"," + (CONF_KEY + tail))));
            DefectIn(t) == defect && TypeIn(t) == Some(kind) && ConfIn(t) == Some(tail)
  {
    var post := CONF_KEY + tail;
    DefectParsed(defect, TYPE_KEY + (kind + ("\"," + post)));
    QuoteComma(post);
    TypeParsed(defect, kind, "," + post);
    ConfParsed(defect, kind, tail);
  }

  lemma QuoteComma(post: string)
    ensures "\"," + post == "\"" + ("," + post)
  {
  }

  // ---- everything printed is text ----

  lemma SignedIsText(n: int)
    ensures IsText(Signed(n))
  {
    SignedChars(n);
  }

  lemma BoxIsText(b: Box)
    ensures IsText(CBox(b))
  {
    SignedIsText(b.x);
    SignedIsText(b.y);
    SignedIsText(b.w);
    SignedIsText(b.h);
    var x, xy := Signed(b.x) + ",", Signed(b.x) + "," + Signed(b.y);
    TextConcat(Signed(b.x), ",");
    TextConcat(x, Signed(b.y));
    TextConcat(xy, ",");
    TextConcat(xy + ",", Signed(b.w));
    TextConcat(xy + "," + Signed(b.w), ",");
    TextConcat(xy + "," + Signed(b.w) + ",", Signed(b.h));
  }

  lemma CResultIsText(defect: int, kind: string, conf: string, box: Box)
    requires IsText(kind) && IsText(conf)
    ensures IsText(CResult(defect, kind, conf, box))
  {
    COpeningIsText(defect);
    CTailIsText(conf, box);
    TextConcat("\",", CONF_KEY + CTail(conf, box));
    TextConcat(kind, CEnding(conf, box));
    TextConcat(TYPE_KEY, kind + CEnding(conf, box));
    TextConcat(COpening(defect), TYPE_KEY + (kind + CEnding(conf, box)));
  }

  lemma COpeningIsText(defect: int)
    ensures IsText(COpening(defect))
  {
    SignedIsText(defect);
    TextConcat(Signed(defect), ",");
    TextConcat(DEFECT_KEY, Signed(defect) + ",");
    TextConcat("{", DEFECT_KEY + (Signed(defect) + ","));
  }

  lemma CTailIsText(conf: string, box: Box)
    requires IsText(conf)
    ensures IsText(CTail(conf, box)) && IsText(CONF_KEY + CTail(conf, box))
  {
    CBboxIsText(box);
    TextConcat(conf, ",\"bbox\":[" + CBox(box) + "]}");
    TextConcat(CONF_KEY, CTail(conf, box));
  }

  lemma CBboxIsText(box: Box)
    ensures IsText(",\"bbox\":[" + CBox(box) + "]}")
  {
    BoxIsText(box);
    TextConcat(",\"bbox\":[", CBox(box));
    TextConcat(",\"bbox\":[" + CBox(box), "]}");
  }

  lemma TextConcat(a: string, b: string)
    requires IsText(a) && IsText(b)
    ensures IsText(a + b)
  {
  }

  // ---- the Python printer and the C parser ----

  /** json.dumps of the result: kind is already escaped, and every colon is followed by a space. */
  function PyResult(defect: int, kind: string, conf: string, box: Box): string {
    PyOpening(defect) + PyRest(kind, conf, box)
  }

  function PyOpening(defect: int): string {
    "{" + (DEFECT_KEY + (" " + Signed(defect) + ","))
  }

  function PyRest(kind: string, conf: string, box: Box): string {
    PY_TYPE + (kind + PyEnding(conf, box))
  }

  const PY_TYPE := " \"type\": \""

  function PyEnding(conf: string, box: Box): string {
    "\", \"conf\": " + PyTail(conf, box)
  }

  function PyTail(conf: string, box: Box): string {
    conf + (", \"bbox\": [" + (PyBox(box) + "]}"))
  }

  function PyBox(b: Box): string {
    Signed(b.x) + ", " + Signed(b.y) + ", " + Signed(b.w) + ", " + Signed(b.h)
  }

  predicate FitsInt(n: int) {
    -0x8000_0000 <= n < 0x8000_0000
  }

  function Pow10(k: nat): nat {
    if k == 0 then 1 else 10 * Pow10(k - 1)
  }

  lemma {:induction false} DecimalLength(n: nat, k: nat)
    requires n < Pow10(k) && k > 0
    ensures |Decimal(n)| <= k
    decreases k
  {
    if n < 10 {
    } else {
      DecimalLength(n / 10, k - 1);
    }
  }

  lemma SignedLength(n: int)
    requires FitsInt(n)
    ensures |Signed(n)| <= 11
  {
    assert Pow10(10) == 10000000000;
    DecimalLength(if n < 0 then -n else n, 10);
  }

  /** The flag of a Python result is found whatever the type text is, and however long. */
  lemma PyDefectParsed(defect: int, rest: string)
    requires FitsInt(defect) && IsText(PyOpening(defect) + rest)
    ensures DefectIn(Searched(BytesOf(PyOpening(defect) + rest))) == defect
  {
    var a, t := PyOpening(defect), PyOpening(defect) + rest;
    SignedLength(defect);
    var n := if |t| < MES_JSON_MAX then |t| else MES_JSON_MAX;
    SearchedText(t);
    var post := rest[..n - |a|];
    assert t[..n] == a + post;
    PyDefectFound(defect, post);
  }

  lemma PyDefectFound(defect: int, post: string)
    ensures DefectIn(PyOpening(defect) + post) == defect
  {
    var number := " " + Signed(defect) + ",";
    assert PyOpening(defect) + post == "{" + (DEFECT_KEY + (number + post));
    KeyInSecondPlace(number + post);
    AtoiOfSigned(defect, "," + post);
    assert number + post == " " + Signed(defect) + ("," + post);
  }

  // ---- the type that is never found ----

  /** In escaped text a backslash stands before every quote. */
  predicate Escaped(s: string) {
    forall i :: 0 <= i < |s| && s[i] == '"' ==> i > 0 && s[i - 1] == '\\'
  }

  /** No colon is followed by a quote. */
  predicate ColonsOpen(s: string) {
    forall i :: 0 <= i < |s| && s[i] == ':' ==> i + 1 < |s| && s[i + 1] != '"'
  }

  predicate NoColon(s: string) {
    forall i :: 0 <= i < |s| ==> s[i] != ':'
  }

  lemma ColonsOpenConcat(a: string, b: string)
    requires ColonsOpen(a) && ColonsOpen(b)
    ensures ColonsOpen(a + b)
  {
  }

  lemma PyBoxHasNoColon(b: Box)
    ensures NoColon(PyBox(b))
  {
    SignedChars(b.x);
    SignedChars(b.y);
    SignedChars(b.w);
    SignedChars(b.h);
  }

  lemma PyEndingColons(conf: string, box: Box)
    requires NoColon(conf)
    ensures ColonsOpen(PyEnding(conf, box))
  {
    PyTailColons(conf, box);
    PyConfColons();
    ColonsOpenConcat("\", \"conf\": ", PyTail(conf, box));
  }

  lemma PyConfColons()
    ensures ColonsOpen("\", \"conf\": ")
  {
  }

  lemma PyTailColons(conf: string, box: Box)
    requires NoColon(conf)
    ensures ColonsOpen(PyTail(conf, box))
  {
    PyBoxColons(box);
    NoColonOpens(conf);
    ColonsOpenConcat(conf, ", \"bbox\": [" + (PyBox(box) + "]}"));
  }

  lemma PyBoxColons(box: Box)
    ensures ColonsOpen(", \"bbox\": [" + (PyBox(box) + "]}"))
  {
    PyBoxHasNoColon(box);
    NoColonConcat(PyBox(box), "]}");
    NoColonOpens(PyBox(box) + "]}");
    PyBboxColons();
    ColonsOpenConcat(", \"bbox\": [", PyBox(box) + "]}");
  }

  lemma PyBboxColons()
    ensures ColonsOpen(", \"bbox\": [")
  {
  }

  lemma NoColonOpens(s: string)
    requires NoColon(s)
    ensures ColonsOpen(s)
  {
  }

  lemma NoColonConcat(a: string, b: string)
    requires NoColon(a) && NoColon(b)
    ensures NoColon(a + b)
  {
  }

  lemma PyOpeningColons(defect: int)
    ensures ColonsOpen(PyOpening(defect) + PY_TYPE)
  {
    SignedChars(defect);
    var n := Signed(defect);
    NoColonConcat(n, ",");
    NoColonOpens(n + ",");
    ColonsOpenConcat(n + ",", PY_TYPE);
    ColonsOpenConcat("{\"defect\": ", (n + ",") + PY_TYPE);
    PyOpeningSplits(defect);
    ConcatAssociative(n, ",", PY_TYPE);
  }

  /**
   The key that the parser looks for ends in colon and quote. Around an escaped text those two can
   only meet where the text ends in a colon, and there the quote before the colon is missing.
   */
  lemma NoTypeKey(a: string, kind: string, b: string, j: nat)
    requires ColonsOpen(a) && |a| >= 2 && a[|a| - 1] == '"' && a[|a| - 2] == ' '
    requires Escaped(kind)
    requires ColonsOpen(b) && b != "" && b[0] == '"'
    ensures !At(a + (kind + b), TYPE_KEY, j)
  {
    var t := a + (kind + b);
    if At(t, TYPE_KEY, j) {
      AtChar(t, TYPE_KEY, j, 4);
      AtChar(t, TYPE_KEY, j, 5);
      AtChar(t, TYPE_KEY, j, 6);
      AtChar(t, TYPE_KEY, j, 7);
      var k := j + 6 - |a|;
      assert t[j + 6] == ':' && t[j + 7] == '"' && t[j + 5] == '"' && t[j + 4] == 'e';
      ColonIsLastOfKind(a, kind, b, j + 6);
      assert k == |kind| - 1;
      QuoteBeforeColon(a, kind, b, j + 5);
    }
  }

  lemma ColonIsLastOfKind(a: string, kind: string, b: string, i: nat)
    requires ColonsOpen(a) && Escaped(kind) && ColonsOpen(b) && b != ""
    requires var t := a + (kind + b); i + 1 < |t| && t[i] == ':'
    ensures (i == |a| + |kind| - 1 && kind != "") || (a + (kind + b))[i + 1] != '"'
  {
    var t := a + (kind + b);
    if i < |a| {
      assert a[i] == t[i];
      assert a[i + 1] == t[i + 1];
    } else if i < |a| + |kind| - 1 {
      var k := i - |a|;
      assert kind[k] == t[i] && kind[k + 1] == t[i + 1];
    } else if i >= |a| + |kind| {
      var k := i - |a| - |kind|;
      assert b[k] == t[i];
      assert b[k + 1] == t[i + 1];
    }
  }

  lemma QuoteBeforeColon(a: string, kind: string, b: string, i: nat)
    requires |a| >= 2 && a[|a| - 1] == '"' && a[|a| - 2] == ' ' && Escaped(kind) && kind != ""
    requires i == |a| + |kind| - 2
    ensures var t := a + (kind + b); t[i] == '"' ==> t[i - 1] != 'e'
  {
    var t := a + (kind + b);
    if |kind| >= 2 {
      var k := |kind| - 2;
      assert t[i] == kind[k];
      assert k > 0 ==> t[i - 1] == kind[k - 1];
    } else {
      assert t[i] == a[|a| - 1] && t[i - 1] == a[|a| - 2];
    }
  }

  lemma AtInPrefix(s: string, t: string, needle: string, i: nat)
    requires s <= t
    ensures At(s, needle, i) ==> At(t, needle, i)
  {
    if i + |needle| <= |s| {
      assert t[i..i + |needle|] == s[i..i + |needle|];
    }
  }

  /** The C parser never finds the type in a Python result; the caller's buffer keeps what it had. */
  lemma PyTypeNeverFound(defect: int, kind: string, conf: string, box: Box)
    requires Escaped(kind) && NoColon(conf) && IsText(PyResult(defect, kind, conf, box))
    ensures TypeIn(Searched(BytesOf(PyResult(defect, kind, conf, box)))) == None
  {
    var a, b := PyOpening(defect) + PY_TYPE, PyEnding(conf, box);
    var t := PyResult(defect, kind, conf, box);
    ConcatAssociative(PyOpening(defect), PY_TYPE, kind + b);
    PyOpeningColons(defect);
    PyEndingColons(conf, box);
    SearchedText(t);
    NoTypeInPrefix(a, kind, b, |Searched(BytesOf(t))|);
  }

  lemma NoTypeInPrefix(a: string, kind: string, b: string, n: nat)
    requires ColonsOpen(a) && |a| >= 2 && a[|a| - 1] == '"' && a[|a| - 2] == ' '
    requires Escaped(kind)
    requires ColonsOpen(b) && b != "" && b[0] == '"'
    requires n <= |a + (kind + b)|
    ensures TypeIn((a + (kind + b))[..n]) == None
  {
    var t := a + (kind + b);
    forall j | 0 <= j <= n ensures !At(t[..n], TYPE_KEY, j) {
      AtInPrefix(t[..n], t, TYPE_KEY, j);
      NoTypeKey(a, kind, b, j);
    }
  }

  // ---- the confidence that is found ----

  /** The letter f is never followed by a quote. */
  predicate NoWordEndsInF(s: string) {
    forall i :: 0 <= i < |s| - 1 && s[i] == 'f' ==> s[i + 1] != '"'
  }

  lemma PyOpeningWords(defect: int)
    ensures NoWordEndsInF(PyOpening(defect) + PY_TYPE)
  {
    SignedChars(defect);
    var n, a := Signed(defect), PyOpening(defect) + PY_TYPE;
    PyOpeningSplits(defect);
    forall i | 0 <= i < |a| - 1 ensures a[i] == 'f' ==> a[i + 1] != '"' {
      if i < 11 {
        assert a[i] == "{\"defect\": "[i];
        assert i < 10 ==> a[i + 1] == "{\"defect\": "[i + 1];
      } else if i < 11 + |n| {
        assert a[i] == n[i - 11];
      } else {
        assert a[i] == ("," + PY_TYPE)[i - 11 - |n|];
      }
    }
  }

  lemma PyOpeningSplits(defect: int)
    ensures PyOpening(defect) + PY_TYPE == "{\"defect\": " + (Signed(defect) + ("," + PY_TYPE))
  {
    var n := Signed(defect);
    assert PyOpening(defect) == "{\"defect\": " + (n + ",");
    assert (n + ",") + PY_TYPE == n + ("," + PY_TYPE);
  }

  /** The closing quote of the key follows an f and comes before a colon: not so in front of the key. */
  lemma NoEarlyConf(a: string, kind: string, post: string, j: nat)
    requires NoWordEndsInF(a) && Escaped(kind) && j < |a| + |kind| + 3
    ensures !At(a + (kind + ("\", " + (CONF_KEY + post))), CONF_KEY, j)
  {
    var t, q, c := a + (kind + ("\", " + (CONF_KEY + post))), j + 5, |a| + |kind|;
    assert t[c] == '"' && t[c + 1] == ',' && t[c + 2] == ' ' && t[c + 3] == '"';
    assert t[c + 4] == 'c' && t[c + 5] == 'o' && t[c + 6] == 'n' && t[c + 7] == 'f';
    if q < |a| {
      assert t[q] == a[q] && t[q - 1] == a[q - 1];
      if t[q] == '"' { NotAt(t, CONF_KEY, j, 4); } else { NotAt(t, CONF_KEY, j, 5); }
    } else if q < c {
      var k := q - |a|;
      assert t[q] == kind[k] && (k > 0 ==> t[q - 1] == kind[k - 1]);
      if t[q] == '"' { NotAt(t, CONF_KEY, j, 4); } else { NotAt(t, CONF_KEY, j, 5); }
    } else if q == c {
      NotAt(t, CONF_KEY, j, 6);
    } else if q == c + 3 {
      NotAt(t, CONF_KEY, j, 4);
    } else {
      NotAt(t, CONF_KEY, j, 5);
    }
  }

  /** The confidence of every Python result that fits is found, whatever the escaped type text is. */
  lemma PyConfFound(defect: int, kind: string, conf: string, box: Box)
    requires Escaped(kind) && IsText(PyResult(defect, kind, conf, box))
    requires |PyResult(defect, kind, conf, box)| < 512
    ensures var c := ConfIn(Searched(BytesOf(PyResult(defect, kind, conf, box))));
            c == Some(" " + PyTail(conf, box)) && " " + conf + "," <= c.value
  {
    var a, post := PyOpening(defect) + PY_TYPE, " " + PyTail(conf, box);
    SearchedWhole(PyResult(defect, kind, conf, box));
    PyResultSplits(defect, kind, conf, box);
    PyOpeningWords(defect);
    ConfAfter(a, kind, post);
    PyTailComma(conf, box);
  }

  lemma PyTailComma(conf: string, box: Box)
    ensures " " + conf + "," <= " " + PyTail(conf, box)
  {
    var rest := PyBox(box) + "]}";
    ConcatAssociative(",", " \"bbox\": [", rest);
    assert "," + " \"bbox\": [" == ", \"bbox\": [";
    CommaBehindConf(conf, " \"bbox\": [" + rest);
  }

  lemma CommaBehindConf(conf: string, rest: string)
    ensures " " + conf + "," <= " " + (conf + ("," + rest))
  {
    ConcatAssociative(" ", conf, "," + rest);
    ConcatAssociative(" " + conf, ",", rest);
  }

  lemma ConfAfter(a: string, kind: string, post: string)
    requires NoWordEndsInF(a) && Escaped(kind)
    ensures ConfIn(a + (kind + ("\", " + (CONF_KEY + post)))) == Some(post)
  {
    var t, pre := a + (kind + ("\", " + (CONF_KEY + post))), a + (kind + "\", ");
    assert t == pre + (CONF_KEY + post);
    AtAfter(pre, CONF_KEY, post);
    forall j | 0 <= j < |pre| ensures !At(t, CONF_KEY, j) {
      NoEarlyConf(a, kind, post, j);
    }
    FoundFirst(t, CONF_KEY, |pre|);
    Dropped(pre, CONF_KEY, post);
  }

  lemma PyResultSplits(defect: int, kind: string, conf: string, box: Box)
    ensures PyResult(defect, kind, conf, box) ==
            (PyOpening(defect) + PY_TYPE) + (kind + ("\", " + (CONF_KEY + (" " + PyTail(conf, box)))))
  {
    var open, tail := PyOpening(defect), PyTail(conf, box);
    PyConfKey(tail);
    ConcatAssociative(open, PY_TYPE, kind + ("\", " + (CONF_KEY + (" " + tail))));
  }

  lemma PyConfKey(tail: string)
    ensures "\", \"conf\": " + tail == "\", " + (CONF_KEY + (" " + tail))
  {
    ConcatAssociative(CONF_KEY, " ", tail);
    ConcatAssociative("\", ", CONF_KEY + " ", tail);
  }
}
