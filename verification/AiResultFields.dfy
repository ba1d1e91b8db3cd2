/**
 What stands in a printed AI result beyond the fields that the C parser reads: the four numbers of the
 box, and the type as Python prints it. The reading here knows the keys and nothing of the printers.
 */
module AiResultFields {
  import opened Bytes
  import opened MesHandler
  import opened AiResultText

  const C_BOX_KEY := "\"bbox\":["
  const PY_BOX_KEY := "\"bbox\": ["
  const PY_TYPE_KEY := "\"type\": \""

  // ---- reading four numbers ----

  /** What stands behind the first comma. */
  function AfterComma(s: string): string {
    var p := Find(s, ",");
    if p < 0 then "" else s[p + 1..]
  }

  /** The numbers at the start of s and behind its first three commas are those of the box. */
  predicate ReadsBox(s: string, box: Box) {
    && Atoi(s) == box.x
    && Atoi(AfterComma(s)) == box.y
    && Atoi(AfterComma(AfterComma(s))) == box.w
    && Atoi(AfterComma(AfterComma(AfterComma(s)))) == box.h
  }

  lemma CommaBehind(number: string, rest: string)
    requires forall i :: 0 <= i < |number| ==> number[i] != ','
    ensures AfterComma(number + ("," + rest)) == rest
  {
    var s := number + ("," + rest);
    AtAfter(number, ",", rest);
    forall j | 0 <= j < |number| ensures !At(s, ",", j) {
      assert s[j] == number[j];
      NotAt(s, ",", j, 0);
    }
    FoundFirst(s, ",", |number|);
    Dropped(number, ",", rest);
  }

  /** A number with at most one space in front. */
  lemma NumberReads(pad: string, n: int, rest: string)
    requires pad == "" || pad == " "
    requires rest != "" && !IsDigit(rest[0])
    ensures Atoi(pad + (Signed(n) + rest)) == n
  {
    AtoiOfSigned(n, rest);
    ConcatAssociative(pad, Signed(n), rest);
    assert pad == "" ==> pad + (Signed(n) + rest) == Signed(n) + rest;
  }

  lemma NumberThenComma(pad: string, n: int, rest: string)
    requires pad == "" || pad == " "
    ensures Atoi(pad + (Signed(n) + ("," + rest))) == n
    ensures AfterComma(pad + (Signed(n) + ("," + rest))) == rest
  {
    NumberReads(pad, n, "," + rest);
    SignedChars(n);
    ConcatAssociative(pad, Signed(n), "," + rest);
    CommaBehind(pad + Signed(n), rest);
  }

  /** Four numbers as both printers put them, the first without a space in front. */
  function Numbers(box: Box, pad: string): string {
    Signed(box.x) + ("," + (pad + (Signed(box.y) + ("," + (pad + (Signed(box.w) + ("," + LastNumber(box, pad))))))))
  }

  function LastNumber(box: Box, pad: string): string {
    pad + (Signed(box.h) + "]}")
  }

  lemma NumbersRead(box: Box, pad: string)
    requires pad == "" || pad == " "
    ensures ReadsBox(Numbers(box, pad), box)
  {
    var t3 := LastNumber(box, pad);
    var t2 := pad + (Signed(box.w) + ("," + t3));
    var t1 := pad + (Signed(box.y) + ("," + t2));
    NumberReads(pad, box.h, "]}");
    NumberThenComma(pad, box.w, t3);
    NumberThenComma(pad, box.y, t2);
    NumberThenComma("", box.x, t1);
    assert "" + (Signed(box.x) + ("," + t1)) == Numbers(box, pad);
  }

  // ---- where the box is ----

  /** No x, quote and colon stand side by side, as they do at the end of the key of the box. */
  predicate NoBoxKeyEnds(s: string) {
    forall i :: 0 <= i < |s| - 2 && s[i] == 'x' && s[i + 1] == '"' ==> s[i + 2] != ':'
  }

  lemma NoBoxKeyConcat(a: string, b: string)
    requires NoBoxKeyEnds(a) && NoBoxKeyEnds(b)
    requires |a| >= 2 && a[|a| - 1] == '"' ==> a[|a| - 2] != 'x'
    requires |b| >= 2 && b[0] == '"' ==> b[1] != ':'
    ensures NoBoxKeyEnds(a + b)
  {
    var t := a + b;
    forall i | 0 <= i < |t| - 2 && t[i] == 'x' && t[i + 1] == '"' ensures t[i + 2] != ':' {
      if i + 2 < |a| {
        assert a[i] == t[i] && a[i + 1] == t[i + 1] && a[i + 2] == t[i + 2];
      } else if i >= |a| {
        assert b[i - |a|] == t[i] && b[i + 1 - |a|] == t[i + 1] && b[i + 2 - |a|] == t[i + 2];
      }
    }
  }

  lemma NoEarlyBox(pre: string, key: string, post: string, j: nat)
    requires NoBoxKeyEnds(pre) && (key == C_BOX_KEY || key == PY_BOX_KEY) && j < |pre|
    ensures !At(pre + (key + post), key, j)
  {
    var t := pre + (key + post);
    if j + 6 < |pre| {
      assert t[j + 4] == pre[j + 4] && t[j + 5] == pre[j + 5] && t[j + 6] == pre[j + 6];
      if t[j + 4] != 'x' {
        NotAt(t, key, j, 4);
      } else if t[j + 5] != '"' {
        NotAt(t, key, j, 5);
      } else {
        NotAt(t, key, j, 6);
      }
    } else {
      var k := j + 6 - |pre|;
      assert t[j + 6] == key[k];
      assert key[0] == '"' && key[1] == 'b' && key[2] == 'b' && key[3] == 'o' && key[4] == 'x' && key[5] == '"';
      NotAt(t, key, j, 6);
    }
  }

  lemma BoxBehind(t: string, pre: string, key: string, post: string)
    requires NoBoxKeyEnds(pre) && (key == C_BOX_KEY || key == PY_BOX_KEY) && t == pre + (key + post)
    ensures Find(t, key) == |pre| && |pre| + |key| <= |t| && t[|pre| + |key|..] == post
  {
    AtAfter(pre, key, post);
    forall j | 0 <= j < |pre| ensures !At(t, key, j) {
      NoEarlyBox(pre, key, post, j);
    }
    FoundFirst(t, key, |pre|);
    Dropped(pre, key, post);
  }

  // ---- the C text ----

  function CBefore(defect: int, kind: string, conf: string): string {
    (COpening(defect) + TYPE_KEY) + (kind + ("\"," + (CONF_KEY + (conf + ","))))
  }

  lemma CNumbers(box: Box)
    ensures CBox(box) + "]}" == Numbers(box, "")
  {
    var x, y, w, h := Signed(box.x), Signed(box.y), Signed(box.w), Signed(box.h);
    assert LastNumber(box, "") == h + "]}";
    assert "" + (w + ("," + LastNumber(box, ""))) == w + ("," + (h + "]}"));
    assert "" + (y + ("," + (w + ("," + (h + "]}"))))) == y + ("," + (w + ("," + (h + "]}"))));
    FourNumbers(x, y, w, h, ",");
  }

  lemma FourNumbers(x: string, y: string, w: string, h: string, sep: string)
    ensures (x + sep + y + sep + w + sep + h) + "]}" == x + (sep + (y + (sep + (w + (sep + (h + "]}"))))))
  {
    ConcatAssociative(x + sep + y + sep + w + sep, h, "]}");
    ConcatAssociative(x + sep + y + sep + w, sep, h + "]}");
    ConcatAssociative(x + sep + y + sep, w, sep + (h + "]}"));
    ConcatAssociative(x + sep + y, sep, w + (sep + (h + "]}")));
    ConcatAssociative(x + sep, y, sep + (w + (sep + (h + "]}"))));
    ConcatAssociative(x, sep, y + (sep + (w + (sep + (h + "]}")))));
  }

  lemma CResultBeforeBox(defect: int, kind: string, conf: string, box: Box)
    ensures CResult(defect, kind, conf, box) == CBefore(defect, kind, conf) + (C_BOX_KEY + Numbers(box, ""))
  {
    var open, rest := COpening(defect), C_BOX_KEY + Numbers(box, "");
    CNumbers(box);
    ConcatAssociative(",\"bbox\":[", CBox(box), "]}");
    ConcatAssociative(",", C_BOX_KEY, Numbers(box, ""));
    assert "," + C_BOX_KEY == ",\"bbox\":[";
    ConcatAssociative(conf, ",", rest);
    ConcatAssociative(CONF_KEY, conf + ",", rest);
    ConcatAssociative("\",", CONF_KEY + (conf + ","), rest);
    ConcatAssociative(kind, "\"," + (CONF_KEY + (conf + ",")), rest);
    ConcatAssociative(open + TYPE_KEY, kind + ("\"," + (CONF_KEY + (conf + ","))), rest);
    ConcatAssociative(open, TYPE_KEY, (kind + ("\"," + (CONF_KEY + (conf + ",")))) + rest);
  }

  lemma QuotedNoBoxKey(s: string)
    requires Escaped(s)
    ensures NoBoxKeyEnds(s) && (|s| >= 2 && s[|s| - 1] == '"' ==> s[|s| - 2] != 'x')
    ensures |s| >= 1 ==> s[0] != '"'
  {
  }

  lemma ConfNoBoxKey(key: string, conf: string)
    requires key == "\",\"conf\":" || key == "\", \"conf\": "
    requires NoQuote(conf)
    ensures NoBoxKeyEnds(key + (conf + ",")) && (key + (conf + ","))[1] == ','
  {
    var t := key + (conf + ",");
    forall i | 0 <= i < |t| - 2 ensures t[i] == 'x' ==> t[i + 1] != '"' {
      if i + 1 >= |key| {
        assert t[i + 1] == (conf + ",")[i + 1 - |key|];
      } else {
        assert t[i] == key[i];
      }
    }
  }

  lemma COpeningNoBoxKey(defect: int)
    ensures var a := COpening(defect) + TYPE_KEY;
            NoBoxKeyEnds(a) && |a| >= 2 && a[|a| - 2] != 'x'
  {
    SignedChars(defect);
    var n := Signed(defect);
    var a := COpening(defect) + TYPE_KEY;
    COpeningPlain(defect);
    forall i | 0 <= i < |a| - 2 ensures a[i] != 'x' {
      if i < 10 {
        assert a[i] == "{\"defect\":"[i];
      } else if i < 10 + |n| {
        assert a[i] == n[i - 10];
      } else {
        assert a[i] == ("," + TYPE_KEY)[i - 10 - |n|];
      }
    }
  }

  lemma COpeningPlain(defect: int)
    ensures COpening(defect) + TYPE_KEY == "{\"defect\":" + (Signed(defect) + ("," + TYPE_KEY))
  {
    var n := Signed(defect);
    ConcatAssociative("{", DEFECT_KEY, n + ",");
    assert "{" + DEFECT_KEY == "{\"defect\":";
    ConcatAssociative("{\"defect\":", n + ",", TYPE_KEY);
    ConcatAssociative(n, ",", TYPE_KEY);
  }

  lemma CBeforeNoBoxKey(defect: int, kind: string, conf: string)
    requires NoQuote(kind) && NoQuote(conf)
    ensures NoBoxKeyEnds(CBefore(defect, kind, conf))
  {
    var b := "\"," + (CONF_KEY + (conf + ","));
    ConcatAssociative("\",", CONF_KEY, conf + ",");
    assert "\"," + CONF_KEY == "\",\"conf\":";
    ConfNoBoxKey("\",\"conf\":", conf);
    COpeningNoBoxKey(defect);
    TextNoBoxKey(COpening(defect) + TYPE_KEY, kind, b);
  }

  lemma TextNoBoxKey(a: string, kind: string, b: string)
    requires NoBoxKeyEnds(a) && |a| >= 2 && a[|a| - 2] != 'x'
    requires Escaped(kind)
    requires NoBoxKeyEnds(b) && |b| >= 2 && b[1] == ','
    ensures NoBoxKeyEnds(a + (kind + b))
  {
    QuotedNoBoxKey(kind);
    NoBoxKeyConcat(kind, b);
    StartsUnlikeColon(kind, b);
    NoBoxKeyConcat(a, kind + b);
  }

  lemma CBoxIn(t: string, pre: string, box: Box)
    requires NoBoxKeyEnds(pre) && t == pre + (C_BOX_KEY + Numbers(box, ""))
    ensures var p := Find(t, "\"bbox\":["); p >= 0 && p + 8 <= |t| && ReadsBox(t[p + 8..], box)
  {
    BoxBehind(t, pre, C_BOX_KEY, Numbers(box, ""));
    NumbersRead(box, "");
  }

  /** In the C text the box follows its key, and its numbers are x, y, width and height. */
  lemma CBoxReads(defect: int, kind: string, conf: string, box: Box)
    requires NoQuote(kind) && NoQuote(conf)
    ensures var t := CResult(defect, kind, conf, box); var p := Find(t, "\"bbox\":[");
            p >= 0 && p + 8 <= |t| && ReadsBox(t[p + 8..], box)
  {
    CBeforeNoBoxKey(defect, kind, conf);
    CResultBeforeBox(defect, kind, conf, box);
    CBoxIn(CResult(defect, kind, conf, box), CBefore(defect, kind, conf), box);
  }

  lemma StartsUnlikeColon(kind: string, b: string)
    requires (|kind| >= 1 ==> kind[0] != '"') && |b| >= 2 && b[1] == ','
    ensures var t := kind + b; |t| >= 2 && t[0] == '"' ==> t[1] != ':'
  {
  }

  // ---- the Python text ----

  function PyBefore(defect: int, kind: string, conf: string): string {
    (PyOpening(defect) + PY_TYPE) + (kind + ("\", \"conf\": " + (conf + ", ")))
  }

  lemma PyNumbers(box: Box)
    ensures PyBox(box) + "]}" == Numbers(box, " ")
  {
    var x, y, w, h := Signed(box.x), Signed(box.y), Signed(box.w), Signed(box.h);
    FourNumbers(x, y, w, h, ", ");
    SpaceBehindComma(h + "]}");
    SpaceBehindComma(w + (", " + (h + "]}")));
    SpaceBehindComma(y + (", " + (w + (", " + (h + "]}")))));
  }

  lemma SpaceBehindComma(s: string)
    ensures ", " + s == "," + (" " + s)
  {
  }

  lemma PyResultBeforeBox(defect: int, kind: string, conf: string, box: Box)
    ensures PyResult(defect, kind, conf, box) == PyBefore(defect, kind, conf) + (PY_BOX_KEY + Numbers(box, " "))
  {
    var open, rest, c := PyOpening(defect), PY_BOX_KEY + Numbers(box, " "), "\", \"conf\": ";
    PyNumbers(box);
    ConcatAssociative(", ", PY_BOX_KEY, Numbers(box, " "));
    assert ", " + PY_BOX_KEY == ", \"bbox\": [";
    ConcatAssociative(conf, ", ", rest);
    ConcatAssociative(c, conf + ", ", rest);
    ConcatAssociative(kind, c + (conf + ", "), rest);
    ConcatAssociative(open + PY_TYPE, kind + (c + (conf + ", ")), rest);
    ConcatAssociative(open, PY_TYPE, (kind + (c + (conf + ", "))) + rest);
  }

  lemma PyOpeningNoBoxKey(defect: int)
    ensures var a := PyOpening(defect) + PY_TYPE;
            NoBoxKeyEnds(a) && |a| >= 2 && a[|a| - 2] != 'x'
  {
    SignedChars(defect);
    var n, a := Signed(defect), PyOpening(defect) + PY_TYPE;
    PyOpeningSplits(defect);
    forall i | 0 <= i < |a| - 2 ensures a[i] != 'x' {
      if i < 11 {
        assert a[i] == "{\"defect\": "[i];
      } else if i < 11 + |n| {
        assert a[i] == n[i - 11];
      } else {
        assert a[i] == ("," + PY_TYPE)[i - 11 - |n|];
      }
    }
  }

  lemma OneMoreSpace(s: string)
    requires NoBoxKeyEnds(s)
    ensures NoBoxKeyEnds(s + " ")
  {
    var t := s + " ";
    assert forall i :: 0 <= i < |s| ==> t[i] == s[i];
  }

  lemma PyBeforeNoBoxKey(defect: int, kind: string, conf: string)
    requires Escaped(kind) && NoQuote(conf)
    ensures NoBoxKeyEnds(PyBefore(defect, kind, conf))
  {
    PyConfNoBoxKey(conf);
    PyOpeningNoBoxKey(defect);
    TextNoBoxKey(PyOpening(defect) + PY_TYPE, kind, "\", \"conf\": " + (conf + ", "));
  }

  lemma PyConfNoBoxKey(conf: string)
    requires NoQuote(conf)
    ensures var b := "\", \"conf\": " + (conf + ", "); NoBoxKeyEnds(b) && b[1] == ','
  {
    var c := "\", \"conf\": ";
    ConfNoBoxKey(c, conf);
    OneMoreSpace(c + (conf + ","));
    ConcatAssociative(c, conf + ",", " ");
    ConcatAssociative(conf, ",", " ");
    assert "," + " " == ", ";
  }

  lemma PyBoxIn(t: string, pre: string, box: Box)
    requires NoBoxKeyEnds(pre) && t == pre + (PY_BOX_KEY + Numbers(box, " "))
    ensures var p := Find(t, "\"bbox\": ["); p >= 0 && p + 9 <= |t| && ReadsBox(t[p + 9..], box)
  {
    BoxBehind(t, pre, PY_BOX_KEY, Numbers(box, " "));
    NumbersRead(box, " ");
  }

  /** In the Python text too, whatever the escaped type text is. */
  lemma PyBoxReads(defect: int, kind: string, conf: string, box: Box)
    requires Escaped(kind) && NoQuote(conf)
    ensures var t := PyResult(defect, kind, conf, box); var p := Find(t, "\"bbox\": [");
            p >= 0 && p + 9 <= |t| && ReadsBox(t[p + 9..], box)
  {
    PyBeforeNoBoxKey(defect, kind, conf);
    PyResultBeforeBox(defect, kind, conf, box);
    PyBoxIn(PyResult(defect, kind, conf, box), PyBefore(defect, kind, conf), box);
  }

  // ---- the type as Python prints it ----

  lemma PyTypeFound(defect: int, post: string)
    ensures Find((PyOpening(defect) + " ") + (PY_TYPE_KEY + post), PY_TYPE_KEY) == |PyOpening(defect)| + 1
  {
    SignedChars(defect);
    var n, a := Signed(defect), PyOpening(defect) + " ";
    PyOpeningSpaced(defect);
    var hay := a + (PY_TYPE_KEY + post);
    AtAfter(a, PY_TYPE_KEY, post);
    forall j | 0 <= j < |a| ensures !At(hay, PY_TYPE_KEY, j) {
      if j == 1 {
        assert hay[2] == a[2] == "{\"defect\": "[2] == 'd';
        NotAt(hay, PY_TYPE_KEY, j, 1);
      } else if j == 8 {
        assert hay[9] == a[9] == "{\"defect\": "[9] == ':';
        NotAt(hay, PY_TYPE_KEY, j, 1);
      } else {
        assert a[j] == if j < 11 then "{\"defect\": "[j] else if j < 11 + |n| then n[j - 11] else ", "[j - 11 - |n|];
        NotAt(hay, PY_TYPE_KEY, j, 0);
      }
    }
    FoundFirst(hay, PY_TYPE_KEY, |a|);
  }

  lemma PyOpeningSpaced(defect: int)
    ensures PyOpening(defect) + " " == "{\"defect\": " + (Signed(defect) + ", ")
  {
    var n := Signed(defect);
    assert PyOpening(defect) == "{\"defect\": " + (n + ",");
    assert (n + ",") + " " == n + ", ";
  }

  /** The type stands behind its key as Python prints it, and the confidence behind the type. */
  lemma PyTypeStands(defect: int, kind: string, conf: string, box: Box)
    ensures var t := PyResult(defect, kind, conf, box); var p := Find(t, "\"type\": \"");
            p >= 0 && p + 9 <= |t| && kind + "\", \"conf\": " + conf + "," <= t[p + 9..]
  {
    var a, post := PyOpening(defect) + " ", kind + PyEnding(conf, box);
    PyTypeFound(defect, post);
    ConcatAssociative(" ", PY_TYPE_KEY, post);
    assert " " + PY_TYPE_KEY == PY_TYPE;
    ConcatAssociative(PyOpening(defect), " ", PY_TYPE_KEY + post);
    Dropped(a, PY_TYPE_KEY, post);
    StandsFirst(kind, "\", \"conf\": ", conf, ", \"bbox\": [" + (PyBox(box) + "]}"));
  }

  lemma StandsFirst(a: string, b: string, c: string, d: string)
    requires d != "" && d[0] == ','
    ensures a + b + c + "," <= a + (b + (c + d))
  {
    assert d == "," + d[1..];
    assert a + (b + (c + d)) == a + b + c + "," + d[1..];
  }
}
