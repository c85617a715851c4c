/** The vocabulary loader: a quote-aware CSV line splitter, the clean-up of
    kana readings, and the parser turning a JLPT word-list CSV (columns
    expression, reading, meaning, tags) into `Word`s. */
module CsvLoader {
  import opened Wrappers
  import opened Strings
  import opened Types

  // ---------------------------------------------------------------------
  // splitCsvLine

  /** The number of commas in `s` that stand outside quotes, when `s` is
      entered with quote state `inQuotes`. Quote state is the parity of the
      '"' characters seen so far; an escaped `""` flips it twice. */
  function UnquotedCommas(s: string, inQuotes: bool): nat
  {
    if |s| == 0 then 0
    else
      (if s[0] == ',' && !inQuotes then 1 else 0)
      + UnquotedCommas(s[1..], if s[0] == '"' then !inQuotes else inQuotes)
  }

  /** The character loop of `splitCsvLine` on the unread rest `s` of the
      line, with its quote state, the field under construction and the
      fields already closed. */
  function Scan(s: string, inQuotes: bool, current: string, fields: seq<string>): (r: seq<string>)
    ensures |r| == |fields| + 1 + UnquotedCommas(s, inQuotes)
    ensures r[..|fields|] == fields
    decreases |s|
  {
    if |s| == 0 then fields + [current]
    else if s[0] == '"' then
      if inQuotes && |s| > 1 && s[1] == '"' then
        // an escaped quote inside quotes yields one literal '"'
        Scan(s[2..], inQuotes, current + ['"'], fields)
      else
        Scan(s[1..], !inQuotes, current, fields)
    else if s[0] == ',' && !inQuotes then
      Scan(s[1..], inQuotes, "", fields + [current])
    else
      Scan(s[1..], inQuotes, current + [s[0]], fields)
  }

  /** Splits one CSV line into its fields. There is one more field than
      there are commas outside quotes, so the result is never empty. */
  function SplitCsvLine(line: string): (fields: seq<string>)
    ensures |fields| == UnquotedCommas(line, false) + 1
  {
    Scan(line, false, "", [])
  }

  /** Without quotes, a character is copied into the current field unless it
      is a comma, which closes the field. */
  lemma {:induction false} ScanPlain(s: string, current: string, fields: seq<string>)
    requires '"' !in s
    ensures Join(Scan(s, false, current, fields), ",") == Join(fields + [current], ",") + s
    ensures forall k :: |fields| <= k < |Scan(s, false, current, fields)| && ',' !in current ==>
              ',' !in Scan(s, false, current, fields)[k]
    decreases |s|
  {
    if |s| > 0 {
      if s[0] == ',' {
        ScanPlain(s[1..], "", fields + [current]);
        JoinSnoc(fields + [current], ",", "");
        assert fields + [current] + [""] == (fields + [current]) + [""];
        assert s == [','] + s[1..];
      } else {
        ScanPlain(s[1..], current + [s[0]], fields);
        JoinExtendLast(fields, ",", current, [s[0]]);
        assert s == [s[0]] + s[1..];
      }
    }
  }

  /** A line without quotes splits into fields that join back to the line. */
  lemma SplitJoinPlain(line: string)
    requires '"' !in line
    ensures Join(SplitCsvLine(line), ",") == line
    ensures forall k :: 0 <= k < |SplitCsvLine(line)| ==> ',' !in SplitCsvLine(line)[k]
  {
    ScanPlain(line, "", []);
  }

  /** A plain field is copied character by character into the current field. */
  lemma {:induction false} ScanPlainField(f: string, t: string, current: string, fields: seq<string>)
    requires ',' !in f && '"' !in f
    ensures Scan(f + t, false, current, fields) == Scan(t, false, current + f, fields)
    decreases |f|
  {
    if |f| > 0 {
      assert f[0] in f;
      assert (f + t)[0] == f[0] && (f + t)[1..] == f[1..] + t;
      assert forall c :: c in f[1..] ==> c in f;
      assert Scan(f + t, false, current, fields) == Scan(f[1..] + t, false, current + [f[0]], fields);
      ScanPlainField(f[1..], t, current + [f[0]], fields);
      assert f == [f[0]] + f[1..];
      assert (current + [f[0]]) + f[1..] == current + f;
    } else {
      assert f + t == t && current + f == current;
    }
  }

  /** Fields free of commas and quotes, joined with commas, split back into
      themselves. */
  lemma {:induction false} JoinSplitPlain(parts: seq<string>, fields: seq<string>)
    requires |parts| > 0
    requires forall k :: 0 <= k < |parts| ==> ',' !in parts[k] && '"' !in parts[k]
    ensures Scan(Join(parts, ","), false, "", fields) == fields + parts
    decreases |parts|
  {
    if |parts| == 1 {
      ScanPlainField(parts[0], "", "", fields);
      assert parts[0] + "" == parts[0];
    } else {
      var rest := Join(parts[1..], ",");
      assert Join(parts, ",") == parts[0] + ("," + rest);
      ScanPlainField(parts[0], "," + rest, "", fields);
      assert "" + parts[0] == parts[0];
      assert ("," + rest)[0] == ',' && ("," + rest)[1..] == rest;
      assert Scan("," + rest, false, parts[0], fields) == Scan(rest, false, "", fields + [parts[0]]);
      JoinSplitPlain(parts[1..], fields + [parts[0]]);
      assert fields + [parts[0]] + parts[1..] == fields + parts;
    }
  }

  /** `f` with every '"' doubled, as a CSV writer escapes a quoted field. */
  function Escape(f: string): (e: string)
    ensures |e| >= |f|
  {
    if |f| == 0 then ""
    else (if f[0] == '"' then "\"\"" else [f[0]]) + Escape(f[1..])
  }

  /** `f` as a quoted CSV field. */
  function Quote(f: string): string {
    "\"" + Escape(f) + "\""
  }

  /** Inside quotes, an escaped field is read back verbatim: `""` yields one
      '"' and commas stay in the field. */
  lemma {:induction false} ScanEscaped(f: string, u: string, current: string, fields: seq<string>)
    ensures Scan(Escape(f) + u, true, current, fields) == Scan(u, true, current + f, fields)
    decreases |f|
  {
    if |f| > 0 {
      var head := if f[0] == '"' then "\"\"" else [f[0]];
      assert Escape(f) + u == head + (Escape(f[1..]) + u);
      ScanEscaped(f[1..], u, current + [f[0]], fields);
      assert current + [f[0]] + f[1..] == current + f;
      if f[0] == '"' {
        assert (head + (Escape(f[1..]) + u))[2..] == Escape(f[1..]) + u;
      } else {
        assert (head + (Escape(f[1..]) + u))[1..] == Escape(f[1..]) + u;
      }
    } else {
      assert Escape(f) + u == u && current + f == current;
    }
  }

  /** A quoted field followed by a comma or the end of the line closes with
      exactly the field's text. */
  lemma ScanQuoted(f: string, t: string, fields: seq<string>)
    requires |t| == 0 || t[0] == ','
    ensures Scan(Quote(f) + t, false, "", fields) == Scan(t, false, f, fields)
  {
    assert Quote(f) + t == "\"" + (Escape(f) + ("\"" + t));
    assert (Quote(f) + t)[1..] == Escape(f) + ("\"" + t);
    ScanEscaped(f, "\"" + t, "", fields);
    assert "" + f == f;
    assert ("\"" + t)[1..] == t;
  }

  /** Quoting every field, whatever it contains, and joining with commas
      gives a line that splits back into exactly those fields. */
  lemma {:induction false} SplitQuotedRoundTrip(parts: seq<string>, fields: seq<string>)
    requires |parts| > 0
    ensures Scan(Join(seq(|parts|, k requires 0 <= k < |parts| => Quote(parts[k])), ","), false, "", fields)
            == fields + parts
    decreases |parts|
  {
    var quoted := seq(|parts|, k requires 0 <= k < |parts| => Quote(parts[k]));
    if |parts| == 1 {
      ScanQuoted(parts[0], "", fields);
      assert Quote(parts[0]) + "" == Quote(parts[0]);
    } else {
      var tail := seq(|parts| - 1, k requires 0 <= k < |parts| - 1 => Quote(parts[1..][k]));
      assert quoted[1..] == tail;
      var rest := Join(tail, ",");
      assert Join(quoted, ",") == Quote(parts[0]) + ("," + rest);
      ScanQuoted(parts[0], "," + rest, fields);
      assert ("," + rest)[1..] == rest;
      SplitQuotedRoundTrip(parts[1..], fields + [parts[0]]);
      assert fields + [parts[0]] + parts[1..] == fields + parts;
    }
  }

  /** A field as a CSV writer emits it: in quotes, or bare. */
  function Encode(f: string, quoted: bool): string {
    if quoted then Quote(f) else f
  }

  /** Only a field holding neither a comma nor a quote may be left bare. */
  predicate Encodable(f: string, quoted: bool) {
    quoted || (',' !in f && '"' !in f)
  }

  /** The fields, each encoded as chosen, joined with commas. */
  function EncodeLine(parts: seq<string>, quoted: seq<bool>): string
    requires |quoted| == |parts|
    decreases |parts|
  {
    if |parts| == 0 then ""
    else if |parts| == 1 then Encode(parts[0], quoted[0])
    else Encode(parts[0], quoted[0]) + "," + EncodeLine(parts[1..], quoted[1..])
  }

  /** An encoded field followed by a comma or the end of the line closes with
      exactly the field's text. */
  lemma ScanEncoded(f: string, quoted: bool, t: string, fields: seq<string>)
    requires Encodable(f, quoted) && (|t| == 0 || t[0] == ',')
    ensures Scan(Encode(f, quoted) + t, false, "", fields) == Scan(t, false, f, fields)
  {
    if quoted {
      ScanQuoted(f, t, fields);
    } else {
      ScanPlainField(f, t, "", fields);
      assert "" + f == f;
    }
  }

  /** An unquoted comma closes the field being read. */
  lemma ScanComma(rest: string, current: string, fields: seq<string>)
    ensures Scan("," + rest, false, current, fields) == Scan(rest, false, "", fields + [current])
  {
    assert ("," + rest)[1..] == rest;
  }

  lemma {:induction false} ScanMixed(parts: seq<string>, quoted: seq<bool>, fields: seq<string>)
    requires |parts| > 0 && |quoted| == |parts|
    requires forall k :: 0 <= k < |parts| ==> Encodable(parts[k], quoted[k])
    ensures Scan(EncodeLine(parts, quoted), false, "", fields) == fields + parts
    decreases |parts|
  {
    if |parts| == 1 {
      ScanEncoded(parts[0], quoted[0], "", fields);
      assert Encode(parts[0], quoted[0]) + "" == EncodeLine(parts, quoted);
    } else {
      var rest := EncodeLine(parts[1..], quoted[1..]);
      assert EncodeLine(parts, quoted) == Encode(parts[0], quoted[0]) + ("," + rest);
      ScanEncoded(parts[0], quoted[0], "," + rest, fields);
      ScanComma(rest, parts[0], fields);
      ScanMixed(parts[1..], quoted[1..], fields + [parts[0]]);
      assert fields + [parts[0]] + parts[1..] == fields + parts;
    }
  }

  /** A line whose fields are each quoted or bare, as a CSV writer may mix
      them, splits back into exactly those fields: quotes only switch quote
      mode and never reach a field, and commas inside quotes stay put. */
  lemma SplitMixedRoundTrip(parts: seq<string>, quoted: seq<bool>)
    requires |parts| > 0 && |quoted| == |parts|
    requires forall k :: 0 <= k < |parts| ==> Encodable(parts[k], quoted[k])
    ensures SplitCsvLine(EncodeLine(parts, quoted)) == parts
  {
    ScanMixed(parts, quoted, []);
    assert [] + parts == parts;
  }

  /** `a,"b,c",d` splits into "a", "b,c" and "d". */
  lemma SplitCsvLineExample(line: string)
    requires line == "a,\"b,c\",d"
    ensures SplitCsvLine(line) == ["a", "b,c", "d"]
  {
    var parts, quoted := ["a", "b,c", "d"], [false, true, false];
    var enc := seq(|parts|, k requires 0 <= k < |parts| => Encode(parts[k], quoted[k]));
    assert Escape("b,c") == "b,c";
    assert Quote("b,c") == "\"b,c\"";
    assert enc[0] == "a" && enc[1] == "\"b,c\"" && enc[2] == "d";
    assert enc == ["a", "\"b,c\"", "d"];
    assert enc[1..][1..] == ["d"];
    assert Join(enc[1..][1..], ",") == "d";
    assert Join(enc[1..], ",") == "\"b,c\"" + "," + "d";
    assert Join(enc, ",") == "a" + "," + ("\"b,c\"" + "," + "d");
    assert "a" + "," + ("\"b,c\"" + "," + "d") == line;
    SplitMixedRoundTrip(parts, quoted);
  }

  // ---------------------------------------------------------------------
  // normalizeKana

  /** `s` up to (not including) the first occurrence of `a` or `b`. */
  function CutAtFirst(s: string, a: char, b: char): (t: string)
    ensures |t| <= |s| && t == s[..|t|]
    ensures FreeOf(t, {a, b})
    ensures FreeOf(s, {a, b}) ==> t == s
    ensures |t| < |s| ==> s[|t|] == a || s[|t|] == b
  {
    var i := IndexOf(s, a);
    var j := IndexOf(s, b);
    if i != -1 && j != -1 then s[..if i < j then i else j]
    else if i != -1 then s[..i]
    else if j != -1 then s[..j]
    else s
  }

  const Parens: set<char> := {'(', '（'}
  const Semicolons: set<char> := {';', '；'}
  const Tildes: set<char> := {'~', '～'}

  /** A reading as the loader leaves it: no annotation or alternative left,
      no tilde marker, no surrounding whitespace. */
  predicate IsNormalized(s: string) {
    && FreeOf(s, Parens + Semicolons + Tildes)
    && IsTrimmed(s)
  }

  /** The four clean-up stages together leave a normalized reading. */
  lemma NormalizeStages(cut1: string, cut2: string, bare: string, t: string)
    requires FreeOf(cut1, Parens)
    requires |cut2| <= |cut1| && cut2 == cut1[..|cut2|] && FreeOf(cut2, Semicolons)
    requires FreeOf(bare, Tildes) && forall k :: 0 <= k < |bare| ==> bare[k] in cut2
    requires TrimmedFrom(bare, t, SkipBlanks(bare, 0)) && IsTrimmed(t)
    ensures IsNormalized(t)
  {
    var i := SkipBlanks(bare, 0);
    forall k | 0 <= k < |t|
      ensures t[k] !in Parens + Semicolons + Tildes
    {
      assert t[k] == bare[i + k];
      var j :| 0 <= j < |cut2| && cut2[j] == t[k];
      assert cut1[j] == cut2[j];
    }
  }

  /** Cleans a reading: drops everything from the first parenthesis (ASCII
      or full-width), then everything from the first semicolon (ASCII or
      full-width), removes tilde markers and trims. */
  function NormalizeKana(input: string): (r: string)
    ensures IsNormalized(r)
    ensures |input| == 0 ==> r == ""
  {
    if |input| == 0 then ""
    else
      var cut1 := CutAtFirst(input, '(', '（');
      var cut2 := CutAtFirst(cut1, ';', '；');
      var bare := RemoveChars(cut2, Tildes);
      var t := Trim(bare);
      NormalizeStages(cut1, cut2, bare, t);
      t
  }

  /** Normalizing twice changes nothing. */
  lemma NormalizeKanaIdempotent(input: string)
    ensures NormalizeKana(NormalizeKana(input)) == NormalizeKana(input)
  {
    var r := NormalizeKana(input);
    if |r| > 0 {
      assert FreeOf(r, Parens) && FreeOf(r, Semicolons) && FreeOf(r, Tildes);
      TrimIdempotent(r);
    }
  }

  /** A reading that is already clean is kept as it is. */
  lemma NormalizeKanaKeepsNormalized(s: string)
    requires IsNormalized(s)
    ensures NormalizeKana(s) == s
  {
    if |s| > 0 {
      assert FreeOf(s, Parens) && FreeOf(s, Semicolons) && FreeOf(s, Tildes);
      TrimIdempotent(s);
    }
  }

  /** The characters that end the useful part of a reading: an opening
      parenthesis or a semicolon, ASCII or full-width. */
  const Markers: set<char> := Parens + Semicolons

  /** The position of the first marker in `s`, or `|s|` when there is none. */
  function FirstMarker(s: string): (p: nat)
    ensures p <= |s| && FreeOf(s[..p], Markers)
    ensures p < |s| ==> s[p] in Markers
  {
    if |s| == 0 then 0
    else if s[0] in Markers then 0
    else
      var p := 1 + FirstMarker(s[1..]);
      assert forall k :: 1 <= k < p ==> s[..p][k] == s[1..][..p - 1][k - 1];
      p
  }

  /** A prefix free of markers that stops at a marker, or at the end, is the
      prefix up to the first marker. */
  lemma FirstMarkerUnique(s: string, q: nat)
    requires q <= |s| && FreeOf(s[..q], Markers) && (q < |s| ==> s[q] in Markers)
    ensures q == FirstMarker(s)
  {
  }

  /** The first marker of `a + b` lies in `a` when `a` has one, and otherwise
      is the first marker of `b`, shifted past `a`. */
  lemma {:induction false} FirstMarkerAppend(a: string, b: string)
    ensures FirstMarker(a + b) == if FirstMarker(a) < |a| then FirstMarker(a) else |a| + FirstMarker(b)
    decreases |a|
  {
    if |a| == 0 {
      assert a + b == b;
    } else {
      assert (a + b)[0] == a[0] && (a + b)[1..] == a[1..] + b;
      if a[0] !in Markers {
        FirstMarkerAppend(a[1..], b);
      }
    }
  }

  /** The two cuts of the loader together cut at the first marker. */
  lemma CutsAtFirstMarker(s: string)
    ensures CutAtFirst(CutAtFirst(s, '(', '（'), ';', '；') == s[..FirstMarker(s)]
  {
    var cut1 := CutAtFirst(s, '(', '（');
    var cut2 := CutAtFirst(cut1, ';', '；');
    assert cut2 == s[..|cut2|];
    assert FreeOf(cut2, Markers) by {
      forall k | 0 <= k < |cut2|
        ensures cut2[k] !in Markers
      {
        assert cut2[k] == cut1[k];
      }
    }
    if |cut2| < |s| {
      if |cut2| < |cut1| {
        assert s[|cut2|] == cut1[|cut2|];
      }
    }
    FirstMarkerUnique(s, |cut2|);
  }

  /** What `normalizeKana` computes: keep the text before the first
      parenthesis or semicolon, remove every tilde from it, and trim. */
  lemma NormalizeKanaSpec(s: string)
    ensures NormalizeKana(s) == Trim(RemoveChars(s[..FirstMarker(s)], Tildes))
  {
    if |s| > 0 {
      CutsAtFirstMarker(s);
    } else {
      assert Trim("") == "";
    }
  }

  /** Everything from the first parenthesis on, ASCII or full-width, is
      ignored. */
  lemma NormalizeKanaCutsAnnotation(a: string, c: char, b: string)
    requires c in Parens
    ensures NormalizeKana(a + [c] + b) == NormalizeKana(a)
  {
    NormalizeKanaCutsAt(a, c, b);
  }

  /** Everything from the first semicolon on, ASCII or full-width, is
      ignored: of alternatives "XX; YY" only "XX" is kept. */
  lemma NormalizeKanaCutsAlternative(a: string, c: char, b: string)
    requires c in Semicolons
    ensures NormalizeKana(a + [c] + b) == NormalizeKana(a)
  {
    NormalizeKanaCutsAt(a, c, b);
  }

  lemma NormalizeKanaCutsAt(a: string, c: char, b: string)
    requires c in Markers
    ensures NormalizeKana(a + [c] + b) == NormalizeKana(a)
  {
    var s := a + [c] + b;
    assert s == a + ([c] + b);
    FirstMarkerAppend(a, [c] + b);
    var p := FirstMarker(a);
    assert s[..FirstMarker(s)] == a[..p];
    NormalizeKanaSpec(s);
    NormalizeKanaSpec(a);
  }

  /** The first of several alternatives, when it is clean, is the reading. */
  lemma NormalizeKanaKeepsFirstAlternative(a: string, b: string)
    requires IsNormalized(a)
    ensures NormalizeKana(a + ";" + b) == a
  {
    NormalizeKanaCutsAlternative(a, ';', b);
    NormalizeKanaKeepsNormalized(a);
  }

  /** Removing tildes forgets where a tilde stood. */
  lemma RemoveTildeInside(x: string, c: char, y: string)
    requires c in Tildes
    ensures RemoveChars(x + [c] + y, Tildes) == RemoveChars(x + y, Tildes)
  {
    RemoveCharsAppend(x + [c], y, Tildes);
    RemoveCharsAppend(x, [c], Tildes);
    RemoveCharsSingle(c, Tildes);
    RemoveCharsAppend(x, y, Tildes);
  }

  /** A tilde is not a marker, so the text kept before the first marker
      differs at most by that tilde. */
  lemma TildeKeptPrefix(a: string, c: char, b: string)
    requires c in Tildes
    ensures var s, u := a + [c] + b, a + b;
            RemoveChars(s[..FirstMarker(s)], Tildes) == RemoveChars(u[..FirstMarker(u)], Tildes)
  {
    var s, u := a + [c] + b, a + b;
    assert s == a + ([c] + b);
    assert c !in Markers;
    FirstMarkerAppend(a, [c] + b);
    FirstMarkerAppend(a, b);
    FirstMarkerAppend([c], b);
    var p := FirstMarker(a);
    if p < |a| {
      assert s[..p] == a[..p] == u[..p];
    } else {
      var q := FirstMarker(b);
      assert s[..FirstMarker(s)] == a + [c] + b[..q];
      assert u[..FirstMarker(u)] == a + b[..q];
      RemoveTildeInside(a, c, b[..q]);
    }
  }

  /** A tilde marker, ASCII or full-width, anywhere in the reading is
      dropped. */
  lemma NormalizeKanaDropsTilde(a: string, c: char, b: string)
    requires c in Tildes
    ensures NormalizeKana(a + [c] + b) == NormalizeKana(a + b)
  {
    TildeKeptPrefix(a, c, b);
    NormalizeKanaSpec(a + [c] + b);
    NormalizeKanaSpec(a + b);
  }

  /** Trailing whitespace after a clean reading is trimmed away. */
  lemma NormalizeKanaTrimsSpace(a: string)
    requires |a| > 0 && IsNormalized(a)
    ensures NormalizeKana(a + " ") == a
  {
    var s := a + " ";
    assert FreeOf(s, Parens) && FreeOf(s, Semicolons) && FreeOf(s, Tildes);
    assert SkipBlanks(s, 0) == 0;
    assert SkipBlanksBack(s, 0, |s|) == SkipBlanksBack(s, 0, |a|) == |a|;
    assert s[0..|a|] == a;
  }

  /** "そうじ (する)" reads "そうじ". */
  lemma NormalizeKanaExampleSouji()
    ensures NormalizeKana("そうじ (する)") == "そうじ"
  {
    var souji: string := ['そ', 'う', 'じ'];
    var spaced := souji + [' '];
    assert "そうじ (する)" == spaced + ['('] + "する)";
    assert IsNormalized(souji);
    NormalizeKanaCutsAnnotation(spaced, '(', "する)");
    NormalizeKanaTrimsSpace(souji);
  }

  /** "~がつ" reads "がつ". */
  lemma NormalizeKanaExampleGatsu()
    ensures NormalizeKana("~がつ") == "がつ"
  {
    var gatsu: string := ['が', 'つ'];
    assert "~がつ" == "" + ['~'] + gatsu;
    assert "" + gatsu == gatsu;
    assert FreeOf(gatsu, Parens + Semicolons + Tildes) && IsTrimmed(gatsu);
    NormalizeKanaDropsTilde("", '~', gatsu);
    NormalizeKanaKeepsNormalized(gatsu);
  }

  /** "たぶん" reads "たぶん". */
  lemma NormalizeKanaExampleTabun()
    ensures NormalizeKana("たぶん") == "たぶん"
  {
    NormalizeKanaKeepsNormalized("たぶん");
  }

  // ---------------------------------------------------------------------
  // parseJlptCsv

  /** `s` without one trailing carriage return. */
  function DropCR(s: string): string {
    if |s| > 0 && s[|s| - 1] == '\r' then s[..|s| - 1] else s
  }

  /** `text.split(/\r?\n/)`: pieces between line feeds, each piece that ends
      at a line feed losing one carriage return before it. */
  function SplitLines(text: string): (lines: seq<string>)
    ensures |lines| > 0
    ensures forall k :: 0 <= k < |lines| ==> '\n' !in lines[k]
    decreases |text|
  {
    var k := IndexOf(text, '\n');
    if k == -1 then [text]
    else [DropCR(text[..k])] + SplitLines(text[k + 1..])
  }

  /** Text without carriage returns is its lines joined by line feeds. */
  lemma {:induction false} SplitLinesJoin(text: string)
    requires '\r' !in text
    ensures Join(SplitLines(text), "\n") == text
    decreases |text|
  {
    var k := IndexOf(text, '\n');
    if k != -1 {
      var head, rest := text[..k], text[k + 1..];
      assert text == head + "\n" + rest;
      assert '\r' !in rest && '\r' !in head;
      assert DropCR(head) == head;
      SplitLinesJoin(rest);
      var tail := SplitLines(rest);
      var lines := [head] + tail;
      assert SplitLines(text) == lines;
      assert lines[1..] == tail;
    }
  }

  /** A "\r\n" break ends a line and takes its carriage return with it. */
  lemma SplitLinesCRLF(a: string, rest: string)
    requires '\n' !in a
    ensures SplitLines(a + "\r\n" + rest) == [a] + SplitLines(rest)
  {
    var text := a + "\r\n" + rest;
    assert text[|a| + 1] == '\n';
    assert text[..|a| + 1] == a + "\r";
    assert IndexOf(text, '\n') == |a| + 1;
    assert text[|a| + 2..] == rest;
  }

  /** A bare "\n" break ends a line that does not end in a carriage return. */
  lemma SplitLinesLF(a: string, rest: string)
    requires '\n' !in a && (|a| == 0 || a[|a| - 1] != '\r')
    ensures SplitLines(a + "\n" + rest) == [a] + SplitLines(rest)
  {
    var text := a + "\n" + rest;
    assert text[|a|] == '\n';
    assert text[..|a|] == a;
    assert IndexOf(text, '\n') == |a|;
    assert text[|a| + 1..] == rest;
  }

  /** Text without a line feed is a single line, kept whole. */
  lemma SplitLinesLast(a: string)
    requires '\n' !in a
    ensures SplitLines(a) == [a]
  {
  }

  /** The lines that hold a visible character, in order. */
  function NonBlank(lines: seq<string>): (r: seq<string>)
    ensures |r| <= |lines|
    ensures forall k :: 0 <= k < |r| ==> !IsBlank(r[k]) && r[k] in lines
    ensures forall k :: 0 <= k < |lines| && !IsBlank(lines[k]) ==> lines[k] in r
  {
    if |lines| == 0 then []
    else if !IsBlank(lines[0]) then [lines[0]] + NonBlank(lines[1..])
    else NonBlank(lines[1..])
  }

  function NonBlankLines(text: string): seq<string> {
    NonBlank(SplitLines(text))
  }

  /** Positions of the three columns the loader reads. */
  datatype Columns = Columns(expression: nat, reading: nat, meaning: nat) {
    function MaxIndex(): (m: nat)
      ensures expression <= m && reading <= m && meaning <= m
    {
      if expression >= reading && expression >= meaning then expression
      else if reading >= meaning then reading
      else meaning
    }
  }

  /** Locates the first `expression`, `reading` and `meaning` header fields;
      `None` when any of them is missing. */
  function HeaderColumns(header: seq<string>): (cols: Option<Columns>)
    ensures cols.None? <==>
              "expression" !in header || "reading" !in header || "meaning" !in header
    ensures cols.Some? ==>
              && cols.value.expression < |header| && header[cols.value.expression] == "expression"
              && cols.value.reading < |header| && header[cols.value.reading] == "reading"
              && cols.value.meaning < |header| && header[cols.value.meaning] == "meaning"
              && "expression" !in header[..cols.value.expression]
              && "reading" !in header[..cols.value.reading]
              && "meaning" !in header[..cols.value.meaning]
  {
    var e := IndexOf(header, "expression");
    var r := IndexOf(header, "reading");
    var m := IndexOf(header, "meaning");
    if e == -1 || r == -1 || m == -1 then None
    else Some(Columns(e, r, m))
  }

  /** The id the loader gives to the word on non-blank line `i`: `word-${i}`. */
  function WordId(i: nat): string {
    "word-" + NatToString(i)
  }

  lemma WordIdInjective(i: nat, j: nat)
    ensures WordId(i) == WordId(j) <==> i == j
  {
    if WordId(i) == WordId(j) {
      assert NatToString(i) == WordId(i)[5..] == WordId(j)[5..] == NatToString(j);
      NatToStringInjective(i, j);
    }
  }

  /** The regex class `[ァ-ン]`: U+30A1 to U+30F3. */
  predicate IsKatakana(c: char) {
    'ァ' <= c <= 'ン'
  }

  predicate HasKatakana(s: string) {
    exists k :: 0 <= k < |s| && IsKatakana(s[k])
  }

  /** The word built from non-blank line `i`, or `None` when the row is
      skipped: blank, too few columns, an empty reading once normalized, or
      a reading containing katakana. */
  function ParseRow(line: string, i: nat, cols: Columns): (w: Option<Word>)
    ensures w.Some? ==> w.value.id == WordId(i) && IsPlayable(w.value)
  {
    if IsBlank(line) then None
    else
      var fields := SplitCsvLine(line);
      if |fields| <= cols.MaxIndex() then None
      else
        var reading := NormalizeKana(fields[cols.reading]);
        if |reading| == 0 then None
        else if HasKatakana(reading) then None
        else Some(Word(WordId(i), reading, fields[cols.expression], fields[cols.meaning]))
  }

  /** A row is kept exactly when it is visible, has every column the
      header names, and its normalized reading is non-empty and free of
      katakana; the word then takes the expression and meaning columns as
      they are. */
  lemma ParseRowSpec(line: string, i: nat, cols: Columns)
    ensures var w := ParseRow(line, i, cols);
            var fields := SplitCsvLine(line);
            w.Some? <==>
              && !IsBlank(line) && cols.MaxIndex() < |fields|
              && |NormalizeKana(fields[cols.reading])| > 0
              && !HasKatakana(NormalizeKana(fields[cols.reading]))
    ensures var w := ParseRow(line, i, cols);
            var fields := SplitCsvLine(line);
            w.Some? ==>
              && cols.MaxIndex() < |fields|
              && w.value.hiragana == NormalizeKana(fields[cols.reading])
              && w.value.kanji == fields[cols.expression]
              && w.value.meaning == fields[cols.meaning]
  {
  }

  /** A word the game can hide: a non-empty, normalized, katakana-free reading. */
  predicate IsPlayable(w: Word) {
    |w.hiragana| > 0 && IsNormalized(w.hiragana) && !HasKatakana(w.hiragana)
  }

  /** The values present in `os`, in order: the words the row loop pushes. */
  function Present<T>(os: seq<Option<T>>): (vs: seq<T>)
    ensures |vs| <= |os|
  {
    if |os| == 0 then []
    else (match os[0] case Some(v) => [v] case None => []) + Present(os[1..])
  }

  /** Everything kept was present. */
  lemma {:induction false} PresentSound<T>(os: seq<Option<T>>)
    ensures forall k :: 0 <= k < |Present(os)| ==> Some(Present(os)[k]) in os
  {
    if |os| > 0 {
      PresentSound(os[1..]);
      var rest := Present(os[1..]);
      forall k | 0 <= k < |Present(os)|
        ensures Some(Present(os)[k]) in os
      {
        match os[0]
        case Some(v) =>
          if k > 0 {
            assert Present(os)[k] == rest[k - 1];
            assert Some(rest[k - 1]) in os[1..];
          }
        case None =>
          assert Present(os)[k] == rest[k];
          assert Some(rest[k]) in os[1..];
      }
    }
  }

  /** The position in `os` of the `k`-th value kept. */
  function SourceIndex<T>(os: seq<Option<T>>, k: nat): (m: nat)
    requires k < |Present(os)|
    ensures m < |os| && os[m] == Some(Present(os)[k])
    decreases |os|
  {
    var rest := Present(os[1..]);
    match os[0]
    case Some(v) =>
      if k == 0 then 0
      else
        assert Present(os)[k] == rest[k - 1];
        1 + SourceIndex(os[1..], k - 1)
    case None =>
      assert Present(os)[k] == rest[k];
      1 + SourceIndex(os[1..], k)
  }

  /** Kept values stay in their original order. */
  lemma {:induction false} SourceIndexIncreasing<T>(os: seq<Option<T>>, k1: nat, k2: nat)
    requires k1 < k2 < |Present(os)|
    ensures SourceIndex(os, k1) < SourceIndex(os, k2)
    decreases |os|
  {
    match os[0]
    case Some(v) =>
      if k1 > 0 {
        SourceIndexIncreasing(os[1..], k1 - 1, k2 - 1);
      }
    case None =>
      SourceIndexIncreasing(os[1..], k1, k2);
  }

  /** The positions in `os` of the kept values, in the order they are kept. */
  function KeptPositions<T>(os: seq<Option<T>>): (ps: seq<nat>)
    ensures |ps| == |Present(os)|
    ensures forall k :: 0 <= k < |ps| ==> ps[k] < |os| && os[ps[k]] == Some(Present(os)[k])
    ensures forall k1, k2 :: 0 <= k1 < k2 < |ps| ==> ps[k1] < ps[k2]
  {
    var ps := seq(|Present(os)|, k requires 0 <= k < |Present(os)| => SourceIndex(os, k));
    assert forall k1, k2 :: 0 <= k1 < k2 < |ps| ==> ps[k1] < ps[k2] by {
      forall k1, k2 | 0 <= k1 < k2 < |ps|
        ensures ps[k1] < ps[k2]
      {
        SourceIndexIncreasing(os, k1, k2);
      }
    }
    ps
  }

  /** Every position holding a value is the source of some kept value. */
  lemma {:induction false} SourceIndexComplete<T>(os: seq<Option<T>>, j: nat)
    requires j < |os| && os[j].Some?
    ensures exists k :: 0 <= k < |Present(os)| && SourceIndex(os, k) == j
    decreases |os|
  {
    if j == 0 {
      assert Present(os) == [os[0].value] + Present(os[1..]);
      assert SourceIndex(os, 0) == 0;
    } else {
      SourceIndexComplete(os[1..], j - 1);
      var k :| 0 <= k < |Present(os[1..])| && SourceIndex(os[1..], k) == j - 1;
      if os[0].Some? {
        assert Present(os) == [os[0].value] + Present(os[1..]);
        assert SourceIndex(os, k + 1) == j;
      } else {
        assert Present(os) == Present(os[1..]);
        assert SourceIndex(os, k) == j;
      }
    }
  }

  /** Every position holding a value is among the kept positions. */
  lemma KeptPositionsComplete<T>(os: seq<Option<T>>)
    ensures forall j :: 0 <= j < |os| && os[j].Some? ==> j in KeptPositions(os)
  {
    forall j | 0 <= j < |os| && os[j].Some?
      ensures j in KeptPositions(os)
    {
      SourceIndexComplete(os, j);
    }
  }

  /** Each line, kept when it holds a visible character. */
  function KeepVisible(lines: seq<string>): (os: seq<Option<string>>)
    ensures |os| == |lines|
    ensures forall k :: 0 <= k < |lines| ==> (os[k].Some? <==> !IsBlank(lines[k])) && (os[k].Some? ==> os[k].value == lines[k])
  {
    seq(|lines|, k requires 0 <= k < |lines| => if IsBlank(lines[k]) then None else Some(lines[k]))
  }

  lemma {:induction false} NonBlankKeepsVisible(lines: seq<string>)
    ensures NonBlank(lines) == Present(KeepVisible(lines))
    decreases |lines|
  {
    if |lines| > 0 {
      assert KeepVisible(lines)[1..] == KeepVisible(lines[1..]);
      NonBlankKeepsVisible(lines[1..]);
    }
  }

  /** Where each kept line came from: the kept lines are exactly the visible
      lines, each once, in their original order. */
  function VisiblePositions(lines: seq<string>): (pos: seq<nat>)
    ensures |pos| == |NonBlank(lines)|
    ensures forall j :: 0 <= j < |pos| ==> pos[j] < |lines| && NonBlank(lines)[j] == lines[pos[j]]
    ensures forall j1, j2 :: 0 <= j1 < j2 < |pos| ==> pos[j1] < pos[j2]
    ensures forall k :: 0 <= k < |lines| ==> (k in pos <==> !IsBlank(lines[k]))
  {
    NonBlankKeepsVisible(lines);
    KeptPositionsComplete(KeepVisible(lines));
    KeptPositions(KeepVisible(lines))
  }

  /** Everything present is kept. */
  lemma {:induction false} PresentComplete<T>(os: seq<Option<T>>)
    ensures forall j :: 0 <= j < |os| && os[j].Some? ==> os[j].value in Present(os)
  {
    if |os| > 0 {
      PresentComplete(os[1..]);
      forall j | 0 <= j < |os| && os[j].Some?
        ensures os[j].value in Present(os)
      {
        if j > 0 {
          assert os[j] == os[1..][j - 1];
        }
      }
    }
  }

  /** One present value is kept. */
  lemma PresentHas<T>(os: seq<Option<T>>, j: nat)
    requires j < |os| && os[j].Some?
    ensures os[j].value in Present(os)
  {
    PresentComplete(os);
  }

  /** Values that differ wherever they sit stay pairwise different once kept. */
  lemma {:induction false} PresentDistinct<T>(os: seq<Option<T>>)
    requires forall j1, j2 :: 0 <= j1 < j2 < |os| && os[j1].Some? && os[j2].Some? ==>
               os[j1].value != os[j2].value
    ensures forall k1, k2 :: 0 <= k1 < k2 < |Present(os)| ==> Present(os)[k1] != Present(os)[k2]
  {
    if |os| > 0 {
      var tail := os[1..];
      assert forall j1, j2 :: 0 <= j1 < j2 < |tail| && tail[j1].Some? && tail[j2].Some? ==>
               tail[j1].value != tail[j2].value by {
        forall j1, j2 | 0 <= j1 < j2 < |tail| && tail[j1].Some? && tail[j2].Some?
          ensures tail[j1].value != tail[j2].value
        {
          assert tail[j1] == os[j1 + 1] && tail[j2] == os[j2 + 1];
        }
      }
      PresentDistinct(tail);
      var rest := Present(tail);
      match os[0]
      case None =>
      case Some(v) =>
        PresentSound(tail);
        forall k | 0 <= k < |rest|
          ensures rest[k] != v
        {
          var j :| 0 <= j < |tail| && tail[j] == Some(rest[k]);
          assert os[j + 1] == tail[j];
        }
        var vs := Present(os);
        assert vs == [v] + rest;
        forall k1, k2 | 0 <= k1 < k2 < |vs|
          ensures vs[k1] != vs[k2]
        {
          assert vs[k2] == rest[k2 - 1];
          if k1 > 0 {
            assert vs[k1] == rest[k1 - 1];
          }
        }
    }
  }

  /** The body of the row loop: the outcome of one non-blank line, given
      its index among the non-blank lines. */
  type RowParser = (string, nat) -> Option<Word>

  /** The row loop body for a header with columns `cols`. */
  function RowParserFor(cols: Columns): RowParser {
    (line: string, i: nat) => ParseRow(line, i, cols)
  }

  /** Every word the parser yields is playable and named after its line. */
  ghost predicate YieldsPlayable(parse: RowParser) {
    forall line: string, i: nat :: parse(line, i).Some? ==>
      IsPlayable(parse(line, i).value) && parse(line, i).value.id == WordId(i)
  }

  lemma RowParserForPlayable(cols: Columns)
    ensures YieldsPlayable(RowParserFor(cols))
  {
  }

  /** The outcome of every data line `1..`, in line order. */
  function RowOutcomes(lines: seq<string>, parse: RowParser): (rows: seq<Option<Word>>)
    requires |lines| > 0
    ensures |rows| == |lines| - 1
    ensures YieldsPlayable(parse) ==> forall k :: 0 <= k < |rows| && rows[k].Some? ==>
              IsPlayable(rows[k].value) && rows[k].value.id == WordId(k + 1)
  {
    seq(|lines| - 1, k requires 0 <= k < |lines| - 1 => parse(lines[k + 1], k + 1))
  }

  /** Parses a JLPT vocabulary CSV. Blank lines are ignored; with at most one
      non-blank line there is nothing to read; otherwise the first line is
      the header and must name the three columns. */
  function ParseJlptCsv(csvText: string): (r: Result<seq<Word>>)
    ensures |NonBlankLines(csvText)| <= 1 ==> r == Success([])
    ensures r.Failure? <==>
              |NonBlankLines(csvText)| > 1 && HeaderColumns(SplitCsvLine(NonBlankLines(csvText)[0])).None?
    ensures r.Failure? ==> r.error == "Unexpected CSV header format"
    ensures r.Success? && |r.value| > 0 ==> |r.value| <= |NonBlankLines(csvText)| - 1
    ensures r.Success? ==> forall k :: 0 <= k < |r.value| ==> IsPlayable(r.value[k])
  {
    var lines := NonBlankLines(csvText);
    if |lines| <= 1 then Success([])
    else
      match HeaderColumns(SplitCsvLine(lines[0]))
      case None => Failure("Unexpected CSV header format")
      case Some(cols) =>
        RowParserForPlayable(cols);
        var rows := RowOutcomes(lines, RowParserFor(cols));
        PresentSound(rows);
        Success(Present(rows))
  }

  /** The N5-only entry point kept for backward compatibility. */
  function ParseN5Csv(csvText: string): (r: Result<seq<Word>>)
    ensures r == ParseJlptCsv(csvText)
  {
    ParseJlptCsv(csvText)
  }

  /** With a valid header, the result is the words kept by the row loop. */
  lemma ParseJlptCsvValue(csvText: string)
    requires |NonBlankLines(csvText)| > 1
    requires HeaderColumns(SplitCsvLine(NonBlankLines(csvText)[0])).Some?
    ensures var lines := NonBlankLines(csvText);
            var cols := HeaderColumns(SplitCsvLine(lines[0])).value;
            ParseJlptCsv(csvText) == Success(Present(RowOutcomes(lines, RowParserFor(cols))))
  {
  }

  /** `w` is the word of data line `i` for some `i >= 1`. */
  predicate FromDataRow(lines: seq<string>, parse: RowParser, w: Word) {
    exists i :: 1 <= i < |lines| && parse(lines[i], i) == Some(w)
  }

  /** Every word the row loop keeps is the word of one of the data rows. */
  lemma RowWordsSound(lines: seq<string>, parse: RowParser)
    requires |lines| > 0
    ensures var ws := Present(RowOutcomes(lines, parse));
            forall k :: 0 <= k < |ws| ==> FromDataRow(lines, parse, ws[k])
  {
    var rows := RowOutcomes(lines, parse);
    var ws := Present(rows);
    PresentSound(rows);
    forall k | 0 <= k < |ws|
      ensures FromDataRow(lines, parse, ws[k])
    {
      var m :| 0 <= m < |rows| && rows[m] == Some(ws[k]);
      assert parse(lines[m + 1], m + 1) == Some(ws[k]);
    }
  }

  /** Every data row that survives the row checks has its word kept. */
  lemma RowWordsComplete(lines: seq<string>, parse: RowParser, j: nat)
    requires 1 <= j < |lines| && parse(lines[j], j).Some?
    ensures parse(lines[j], j).value in Present(RowOutcomes(lines, parse))
  {
    var rows := RowOutcomes(lines, parse);
    assert rows[j - 1] == parse(lines[j], j);
    PresentHas(rows, j - 1);
  }

  /** When row `k` can only yield the word named `word-(k+1)`, the words
      kept carry pairwise different ids. */
  lemma {:induction false} PresentIdsDistinct(rows: seq<Option<Word>>)
    requires forall k :: 0 <= k < |rows| && rows[k].Some? ==> rows[k].value.id == WordId(k + 1)
    ensures var ws := Present(rows);
            forall k1, k2 :: 0 <= k1 < k2 < |ws| ==> ws[k1].id != ws[k2].id
  {
    forall j1, j2 | 0 <= j1 < j2 < |rows| && rows[j1].Some? && rows[j2].Some?
      ensures rows[j1].value != rows[j2].value
    {
      WordIdInjective(j1 + 1, j2 + 1);
    }
    PresentDistinct(rows);
    var ws := Present(rows);
    PresentSound(rows);
    forall k1, k2 | 0 <= k1 < k2 < |ws|
      ensures ws[k1].id != ws[k2].id
    {
      var m1 :| 0 <= m1 < |rows| && rows[m1] == Some(ws[k1]);
      var m2 :| 0 <= m2 < |rows| && rows[m2] == Some(ws[k2]);
      WordIdInjective(m1 + 1, m2 + 1);
    }
  }

  /** Every parsed word carries a distinct id. */
  lemma ParseJlptCsvIdsDistinct(csvText: string)
    requires ParseJlptCsv(csvText).Success?
    ensures var ws := ParseJlptCsv(csvText).value;
            forall k1, k2 :: 0 <= k1 < k2 < |ws| ==> ws[k1].id != ws[k2].id
  {
    var lines := NonBlankLines(csvText);
    if |lines| > 1 {
      var cols := HeaderColumns(SplitCsvLine(lines[0])).value;
      ParseJlptCsvValue(csvText);
      RowParserForPlayable(cols);
      PresentIdsDistinct(RowOutcomes(lines, RowParserFor(cols)));
    }
  }

  /** With a valid header, the parsed words are exactly the words of the
      data lines that pass the row checks: each comes from such a line,
      and each such line contributes its word. */
  lemma ParseJlptCsvRows(csvText: string)
    requires |NonBlankLines(csvText)| > 1
    requires HeaderColumns(SplitCsvLine(NonBlankLines(csvText)[0])).Some?
    ensures var lines := NonBlankLines(csvText);
            var parse := RowParserFor(HeaderColumns(SplitCsvLine(lines[0])).value);
            var ws := ParseJlptCsv(csvText).value;
            && ParseJlptCsv(csvText).Success?
            && (forall k :: 0 <= k < |ws| ==> FromDataRow(lines, parse, ws[k]))
            && (forall j :: 1 <= j < |lines| && parse(lines[j], j).Some? ==> parse(lines[j], j).value in ws)
  {
    var lines := NonBlankLines(csvText);
    var parse := RowParserFor(HeaderColumns(SplitCsvLine(lines[0])).value);
    ParseJlptCsvValue(csvText);
    RowWordsSound(lines, parse);
    forall j | 1 <= j < |lines| && parse(lines[j], j).Some?
      ensures parse(lines[j], j).value in Present(RowOutcomes(lines, parse))
    {
      RowWordsComplete(lines, parse, j);
    }
  }

  /** The line number, among the non-blank lines, of each parsed word. */
  function WordLines(csvText: string): (ls: seq<nat>)
    requires ParseJlptCsv(csvText).Success?
    ensures |ls| == |ParseJlptCsv(csvText).value|
  {
    var lines := NonBlankLines(csvText);
    if |lines| <= 1 then []
    else
      var rows := RowOutcomes(lines, RowParserFor(HeaderColumns(SplitCsvLine(lines[0])).value));
      ParseJlptCsvValue(csvText);
      RowLines(rows)
  }

  /** One-based line numbers of the rows kept: a row at position `k` comes
      from data line `k + 1`. */
  function RowLines(rows: seq<Option<Word>>): (ls: seq<nat>)
    ensures |ls| == |Present(rows)|
  {
    var ps := KeptPositions(rows);
    seq(|ps|, k requires 0 <= k < |ps| => ps[k] + 1)
  }

  /** The kept rows are named after their data lines, which strictly
      increase and lie within the file. */
  lemma RowLinesSpec(lines: seq<string>, parse: RowParser)
    requires |lines| > 0 && YieldsPlayable(parse)
    ensures var rows := RowOutcomes(lines, parse);
            var ws, ls := Present(rows), RowLines(rows);
            && (forall k :: 0 <= k < |ws| ==> 1 <= ls[k] < |lines| && ws[k].id == WordId(ls[k]))
            && (forall k1, k2 :: 0 <= k1 < k2 < |ws| ==> ls[k1] < ls[k2])
  {
  }

  /** The words of a parse with a valid header, from its kept rows. */
  lemma WordLinesValue(csvText: string)
    requires |NonBlankLines(csvText)| > 1
    requires HeaderColumns(SplitCsvLine(NonBlankLines(csvText)[0])).Some?
    ensures var lines := NonBlankLines(csvText);
            var rows := RowOutcomes(lines, RowParserFor(HeaderColumns(SplitCsvLine(lines[0])).value));
            ParseJlptCsv(csvText) == Success(Present(rows)) && WordLines(csvText) == RowLines(rows)
  {
    ParseJlptCsvValue(csvText);
  }

  /** Each parsed word is named after its data line, and the words come in
      line order. */
  lemma ParseJlptCsvIdsIncreasing(csvText: string)
    requires ParseJlptCsv(csvText).Success?
    ensures var ws, ls := ParseJlptCsv(csvText).value, WordLines(csvText);
            && (forall k :: 0 <= k < |ws| ==> 1 <= ls[k] < |NonBlankLines(csvText)| && ws[k].id == WordId(ls[k]))
            && (forall k1, k2 :: 0 <= k1 < k2 < |ws| ==> ls[k1] < ls[k2])
  {
    var lines := NonBlankLines(csvText);
    if |lines| > 1 {
      var cols := HeaderColumns(SplitCsvLine(lines[0])).value;
      WordLinesValue(csvText);
      RowParserForPlayable(cols);
      RowLinesSpec(lines, RowParserFor(cols));
    }
  }
}
