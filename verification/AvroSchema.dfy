/** The schema text of a record, and the scan that reads the field kinds back out of it. */
module AvroSchema {
  import opened Basics
  import opened Decimals
  import opened Protobuf

  function TypeName(kind: Kind): string {
    match kind
    case F64 => "double"
    case I32 => "int"
    case I64 => "long"
  }

  const MARK: string := "\"type\": \""

  /** One field of the schema, up to its closing brace. */
  function FieldText(k: nat, kind: Kind): string {
    "    {\"name\": \"f" + Decimal(k) + "\", " + MARK + TypeName(kind) + "\"}"
  }

  /** What stands between the record's own type and its fields. */
  const HEAD: string := "record\", \"name\": " + "\"WireRecord\", " + "\"namespace\": \"bench"
                        + ".wire\",\n  \"fields\": [\n"
  const TAIL: string := "\n  ]\n}\n"

  /** The fields from k on, joined by a comma and a line break. */
  function FieldsText(k: nat, kinds: seq<Kind>): string
    decreases |kinds|
  {
    if kinds == [] then ""
    else if |kinds| == 1 then FieldText(k, kinds[0])
    else FieldText(k, kinds[0]) + ",\n" + FieldsText(k + 1, kinds[1..])
  }

  /** The schema text of a record of these kinds, its fields numbered from 1. */
  function Avsc(kinds: seq<Kind>): string {
    "{\n  " + MARK + HEAD + FieldsText(1, kinds) + TAIL
  }

  function Letter(kind: Kind): char {
    match kind
    case F64 => 'd'
    case I32 => 'i'
    case I64 => 'l'
  }

  function Letters(kinds: seq<Kind>): string {
    if kinds == [] then "" else [Letter(kinds[0])] + Letters(kinds[1..])
  }

  /** The letter the scan records for the first character of a type's name. */
  function LetterOf(c: char): char {
    if c == 'd' || c == 'i' || c == 'l' then c else '?'
  }

  predicate TypeAt(def: string, i: nat)
    requires i + 7 < |def|
  {
    && def[i] == '"' && def[i + 1] == 't' && def[i + 2] == 'y' && def[i + 3] == 'p' && def[i + 4] == 'e'
    && def[i + 5] == '"'
  }

  function NextQuote(def: string, j: nat): (q: nat)
    ensures q >= j
    decreases |def| - j
  {
    if j < |def| && def[j] != '"' then NextQuote(def, j + 1) else j
  }

  /** What the scan adds from position i on, having seen so many type values. */
  function KindsFrom(def: string, i: nat, seen: nat): string
    decreases |def| - i
  {
    if i + 7 >= |def| then ""
    else if TypeAt(def, i) then
      var j := NextQuote(def, i + 6) + 1;
      (if seen > 0 && j < |def| then [LetterOf(def[j])] else "") + KindsFrom(def, j, seen + 1)
    else KindsFrom(def, i + 1, seen)
  }

  /** The field-kind letters of a definition: every type value after the record's own. */
  method KindsOf(def: string) returns (out: string)
    ensures out == KindsFrom(def, 0, 0)
  {
    out := "";
    var n, seen, i := |def|, 0, 0;
    while i + 7 < n
      invariant out + KindsFrom(def, i, seen) == KindsFrom(def, 0, 0)
      decreases n - i
    {
      if def[i] == '"' && def[i + 1] == 't' && def[i + 2] == 'y' && def[i + 3] == 'p' && def[i + 4] == 'e'
        && def[i + 5] == '"'
      {
        var j := i + 6;
        while j < n && def[j] != '"'
          invariant i + 6 <= j && NextQuote(def, j) == NextQuote(def, i + 6)
          decreases n - j
        {
          j := j + 1;
        }
        j := j + 1;
        ghost var before := out;
        if seen > 0 && j < n {
          var c := def[j];
          if c == 'd' {
            out := out + "d";
          } else if c == 'i' {
            out := out + "i";
          } else if c == 'l' {
            out := out + "l";
          } else {
            out := out + "?";
          }
        }
        Regroup(before, if seen > 0 && j < n then [LetterOf(def[j])] else "", KindsFrom(def, j, seen + 1));
        seen := seen + 1;
        i := j;
      } else {
        i := i + 1;
      }
    }
    assert out + "" == out;
  }

  /** Text the scan passes over: no quote in it is its last character or stands before a 't'. */
  ghost predicate Quiet(s: string) {
    forall p :: 0 <= p < |s| && s[p] == '"' ==> p + 1 < |s| && s[p + 1] != 't'
  }

  lemma {:induction false} SkipQuiet(def: string, i: nat, s: string, seen: nat)
    requires i + |s| <= |def| && def[i..i + |s|] == s && Quiet(s)
    ensures KindsFrom(def, i, seen) == KindsFrom(def, i + |s|, seen)
    decreases |s|
  {
    if s != [] && i + 7 < |def| {
      assert def[i] == def[i..i + |s|][0];
      if |s| > 1 {
        assert def[i + 1] == def[i..i + |s|][1];
      }
      assert !TypeAt(def, i);
      assert def[i + 1..i + |s|] == def[i..i + |s|][1..] == s[1..];
      QuietTail(s);
      SkipQuiet(def, i + 1, s[1..], seen);
    }
  }

  lemma QuietTail(s: string)
    requires Quiet(s) && s != []
    ensures Quiet(s[1..])
  {
    forall p | 0 <= p < |s[1..]| && s[1..][p] == '"'
      ensures p + 1 < |s[1..]| && s[1..][p + 1] != 't'
    {
      assert s[p + 1] == '"';
    }
  }

  /** A type mark records the first letter of its value, except for the first mark of all. */
  lemma ReadMark(def: string, i: nat, seen: nat)
    requires i + 9 < |def| && def[i..i + 9] == MARK
    ensures KindsFrom(def, i, seen) ==
      (if seen > 0 then [LetterOf(def[i + 9])] else "") + KindsFrom(def, i + 9, seen + 1)
  {
    var m := def[i..i + 9];
    assert def[i] == m[0] && def[i + 1] == m[1] && def[i + 2] == m[2] && def[i + 3] == m[3] && def[i + 4] == m[4]
           && def[i + 5] == m[5] && def[i + 6] == m[6] && def[i + 7] == m[7] && def[i + 8] == m[8];
    assert NextQuote(def, i + 6) == NextQuote(def, i + 7) == NextQuote(def, i + 8) == i + 8;
  }

  /** The definition carries the text s at position i. */
  ghost predicate At(def: string, i: nat, s: string) {
    i + |s| <= |def| && def[i..i + |s|] == s
  }

  lemma AtSplit(def: string, i: nat, s: string, t: string)
    requires At(def, i, s + t)
    ensures At(def, i, s) && At(def, i + |s|, t)
  {
    var all := def[i..i + |s + t|];
    assert all == s + t;
    var x, y := def[i..i + |s|], def[i + |s|..i + |s| + |t|];
    forall p | 0 <= p < |s|
      ensures x[p] == s[p]
    {
      assert all[p] == def[i + p];
    }
    forall p | 0 <= p < |t|
      ensures y[p] == t[p]
    {
      assert all[|s| + p] == def[i + (|s| + p)];
    }
  }

  lemma QuietConcat(s: string, t: string)
    requires Quiet(s) && Quiet(t)
    ensures Quiet(s + t)
  {
  }

  function Before(k: nat): string { "    {\"name\": \"f" + Decimal(k) + "\", " }
  function After(kind: Kind): string { TypeName(kind) + "\"}" }

  lemma BeforeQuiet(k: nat)
    ensures Quiet(Before(k))
  {
    QuietConcat("    {\"name\": \"f", Decimal(k));
    QuietConcat("    {\"name\": \"f" + Decimal(k), "\", ");
  }

  lemma AfterQuiet(kind: Kind)
    ensures Quiet(After(kind)) && After(kind)[0] == Letter(kind)
  {
  }

  /** Scanning one field adds its letter. */
  lemma ScanField(def: string, i: nat, k: nat, kind: Kind, seen: nat)
    requires At(def, i, FieldText(k, kind)) && seen > 0
    ensures KindsFrom(def, i, seen) == [Letter(kind)] + KindsFrom(def, i + |FieldText(k, kind)|, seen + 1)
  {
    hide KindsFrom, Quiet, At, Decimal;
    var a, b := Before(k), After(kind);
    assert FieldText(k, kind) == a + (MARK + b);
    AtSplit(def, i, a, MARK + b);
    AtSplit(def, i + |a|, MARK, b);
    BeforeQuiet(k);
    AfterQuiet(kind);
    hide Before, After;
    FieldSteps(def, i, a, b, kind, seen);
  }

  lemma FieldSteps(def: string, i: nat, a: string, b: string, kind: Kind, seen: nat)
    requires At(def, i, a) && At(def, i + |a|, MARK) && At(def, i + |a| + |MARK|, b) && seen > 0
    requires Quiet(a) && Quiet(b) && b != [] && b[0] == Letter(kind)
    ensures KindsFrom(def, i, seen) == [Letter(kind)] + KindsFrom(def, i + |a| + |MARK| + |b|, seen + 1)
  {
    hide KindsFrom, Quiet;
    SkipQuiet(def, i, a, seen);
    assert def[i + |a| + |MARK|] == def[i + |a| + |MARK|..i + |a| + |MARK| + |b|][0];
    ReadMark(def, i + |a|, seen);
    SkipQuiet(def, i + |a| + |MARK|, b, seen + 1);
  }

  lemma ScanEnd(def: string, i: nat, seen: nat)
    requires At(def, i, TAIL) && i + |TAIL| == |def|
    ensures KindsFrom(def, i, seen) == ""
  {
    SkipQuiet(def, i, TAIL, seen);
  }

  /** Scanning the fields adds their letters and stops. */
  lemma {:induction false} ScanFields(def: string, i: nat, k: nat, kinds: seq<Kind>, seen: nat)
    requires At(def, i, FieldsText(k, kinds) + TAIL) && i + |FieldsText(k, kinds)| + |TAIL| == |def| && seen > 0
    ensures KindsFrom(def, i, seen) == Letters(kinds)
    decreases |kinds|
  {
    hide KindsFrom, At, FieldText;
    if kinds == [] {
      AtSplit(def, i, "", TAIL);
      ScanEnd(def, i, seen);
    } else if |kinds| == 1 {
      var f := FieldText(k, kinds[0]);
      AtSplit(def, i, f, TAIL);
      ScanField(def, i, k, kinds[0], seen);
      ScanEnd(def, i + |f|, seen + 1);
      Regroup([Letter(kinds[0])], "", "");
      assert Letters(kinds[1..]) == "";
    } else {
      var f, rest := FieldText(k, kinds[0]), FieldsText(k + 1, kinds[1..]);
      assert FieldsText(k, kinds) + TAIL == f + (",\n" + (rest + TAIL));
      AtSplit(def, i, f, ",\n" + (rest + TAIL));
      AtSplit(def, i + |f|, ",\n", rest + TAIL);
      ScanField(def, i, k, kinds[0], seen);
      SkipComma(def, i + |f|, seen + 1);
      ScanFields(def, i + |f| + 2, k + 1, kinds[1..], seen + 1);
    }
  }

  lemma SkipComma(def: string, i: nat, seen: nat)
    requires At(def, i, ",\n")
    ensures KindsFrom(def, i, seen) == KindsFrom(def, i + 2, seen)
  {
    SkipQuiet(def, i, ",\n", seen);
  }

  /** The scan of a printed schema gives the kinds back, for any list of kinds. */
  lemma KindsOfPrinted(kinds: seq<Kind>)
    ensures KindsFrom(Avsc(kinds), 0, 0) == Letters(kinds)
  {
    hide KindsFrom, FieldsText, Letters, At;
    var def := Avsc(kinds);
    var rest := HEAD + (FieldsText(1, kinds) + TAIL);
    assert def == "{\n  " + (MARK + rest);
    WholeAt(def);
    AtSplit(def, 0, "{\n  ", MARK + rest);
    AtSplit(def, 4, MARK, rest);
    AtSplit(def, 13, HEAD, FieldsText(1, kinds) + TAIL);
    ScanHead(def);
    ScanFields(def, 13 + |HEAD|, 1, kinds, 1);
  }

  lemma WholeAt(def: string)
    ensures At(def, 0, def)
  {
  }

  lemma ScanHead(def: string)
    requires At(def, 0, "{\n  ") && At(def, 4, MARK) && At(def, 13, HEAD)
    ensures KindsFrom(def, 0, 0) == KindsFrom(def, 13 + |HEAD|, 1)
  {
    hide KindsFrom;
    SkipQuiet(def, 0, "{\n  ", 0);
    ReadMark(def, 4, 0);
    Regroup(KindsFrom(def, 13, 1), "", "");
    HeadQuiet();
    SkipQuiet(def, 13, HEAD, 1);
  }

  lemma HeadQuiet()
    ensures Quiet(HEAD)
  {
    var a, b, c, d := "record\", \"name\": ", "\"WireRecord\", ",
      "\"namespace\": \"bench", ".wire\",\n  \"fields\": [\n";
    assert HEAD == a + b + c + d;
    QuietConcat(a, b);
    QuietConcat(a + b, c);
    QuietConcat(a + b + c, d);
  }

  /** Distinct kinds have distinct letters, so the letters tell the kinds. */
  lemma {:induction false} LettersInjective(a: seq<Kind>, b: seq<Kind>)
    ensures Letters(a) == Letters(b) <==> a == b
    decreases |a|
  {
    if Letters(a) == Letters(b) && a != [] {
      assert b != [];
      assert Letters(a)[0] == Letter(a[0]) && Letters(b)[0] == Letter(b[0]);
      assert Letters(a)[1..] == Letters(a[1..]) && Letters(b)[1..] == Letters(b[1..]);
      LettersInjective(a[1..], b[1..]);
      assert a == [a[0]] + a[1..] && b == [b[0]] + b[1..];
    }
  }

  /** The length of a two-field schema: the type names count, their order does not. */
  lemma LengthOfTwo(a: Kind, b: Kind)
    ensures |Avsc([a, b])| == 4 + |MARK| + |HEAD| + |Before(1)| + |MARK| + |After(a)| + 2
                              + |Before(2)| + |MARK| + |After(b)| + |TAIL|
  {
    hide Decimal;
    assert [a, b][1..] == [b];
    assert FieldsText(1, [a, b]) == FieldText(1, a) + ",\n" + FieldText(2, b);
    assert |FieldText(1, a)| == |Before(1)| + |MARK| + |After(a)|;
    assert |FieldText(2, b)| == |Before(2)| + |MARK| + |After(b)|;
  }

  /** One field as it is printed, for each kind. */
  lemma PrintedLong()
    ensures FieldText(7, I64) == "    {\"name\": \"f7\", \"type\": \"long\"}"
  {
    hide FieldText;
    PrintedField(7, I64, "7", "long");
  }

  lemma PrintedInt()
    ensures FieldText(1, I32) == "    {\"name\": \"f1\", \"type\": \"int\"}"
  {
    hide FieldText;
    PrintedField(1, I32, "1", "int");
  }

  lemma PrintedDouble()
    ensures FieldText(5, F64) == "    {\"name\": \"f5\", \"type\": \"double\"}"
  {
    hide FieldText;
    PrintedField(5, F64, "5", "double");
  }

  lemma PrintedField(k: nat, kind: Kind, number: string, name: string)
    requires Decimal(k) == number && |number| == 1 && TypeName(kind) == name
    ensures FieldText(k, kind) == "    {\"name\": \"f" + number + "\", \"type\": \"" + name + "\"}"
  {
    hide Decimal, TypeName;
    assert "\", " + MARK == "\", \"type\": \"";
  }

  /** A schema of three fields: numbered from 1, joined by a comma and a line break. */
  lemma PrintedSchema(a: Kind, b: Kind, c: Kind)
    ensures Avsc([a, b, c]) == "{\n  \"type\": \"" + HEAD
      + (FieldText(1, a) + ",\n" + (FieldText(2, b) + ",\n" + FieldText(3, c))) + "\n  ]\n}\n"
  {
    hide FieldText;
    assert [a, b, c][1..] == [b, c] && [b, c][1..] == [c];
    assert FieldsText(2, [b, c]) == FieldText(2, b) + ",\n" + FieldText(3, c);
    assert "{\n  " + MARK == "{\n  \"type\": \"";
  }

  /** What the scan takes for a type mark, and where it looks for the value's quote. */
  lemma TypeMarkIff(def: string, i: nat)
    requires i + 7 < |def|
    ensures TypeAt(def, i) <==> def[i..i + 6] == "\"type\""
  {
    var m := def[i..i + 6];
    assert m[0] == def[i] && m[1] == def[i + 1] && m[2] == def[i + 2] && m[3] == def[i + 3] && m[4] == def[i + 4]
           && m[5] == def[i + 5];
  }

  lemma {:induction false} NextQuoteIsFirst(def: string, j: nat)
    requires j <= |def|
    ensures j <= NextQuote(def, j) <= |def|
    ensures forall h :: j <= h < NextQuote(def, j) ==> def[h] != '"'
    ensures NextQuote(def, j) < |def| ==> def[NextQuote(def, j)] == '"'
    decreases |def| - j
  {
    if j < |def| && def[j] != '"' {
      NextQuoteIsFirst(def, j + 1);
    }
  }

  /** Short scans: the first value is passed over, other types are '?', and fewer than eight
      characters hold no type. */
  lemma ShortScans()
    ensures KindsFrom("\"type\"\"s", 0, 1) == "?" && KindsFrom("\"type\":\"l", 0, 1) == "l"
    ensures KindsFrom("\"type\"\"i", 0, 0) == "" && KindsFrom("\"type\"\"", 0, 1) == ""
  {
  }
}
