/** String helpers used when rendering notifications: character-safe
    truncation, middle-ellipsis truncation, the hours/minutes duration label
    and markup stripping. Rust's `&str` is UTF-8; here a string is a sequence
    of Unicode scalar values and its UTF-8 size is computed explicitly. */
module Utils {

  // ----- UTF-8 size -----

  /** Bytes UTF-8 needs for `c`. */
  function Utf8Len(c: char): (n: nat)
    ensures 1 <= n <= 4
    ensures n == 1 <==> (c as int) < 0x80
  {
    if (c as int) < 0x80 then 1
    else if (c as int) < 0x800 then 2
    else if (c as int) < 0x1_0000 then 3
    else 4
  }

  /** `str::len`: the UTF-8 size of `s` in bytes. */
  function Utf8Length(s: string): (n: nat)
    ensures |s| <= n <= 4 * |s|
    decreases |s|
  {
    if s == [] then 0 else Utf8Length(s[..|s| - 1]) + Utf8Len(s[|s| - 1])
  }

  predicate IsAscii(s: string)
  {
    forall i :: 0 <= i < |s| ==> (s[i] as int) < 0x80
  }

  /** The byte size equals the character count exactly for ASCII text. */
  lemma {:induction false} Utf8LengthAscii(s: string)
    ensures Utf8Length(s) == |s| <==> IsAscii(s)
    decreases |s|
  {
    if s != [] {
      Utf8LengthAscii(s[..|s| - 1]);
      assert forall i :: 0 <= i < |s| - 1 ==> s[..|s| - 1][i] == s[i];
    }
  }

  // ----- truncate_chars -----

  /** At most `maxChars` characters of `s`, never splitting one. */
  function TruncateChars(s: string, maxChars: nat): (r: string)
    ensures r <= s
    ensures |r| == if |s| <= maxChars then |s| else maxChars
  {
    if |s| > maxChars then s[..maxChars] else s
  }

  /** Truncating twice to the same bound is truncating once, and the
      truncated text with the rest of `s` appended gives `s` back. */
  lemma TruncateCharsIdempotent(s: string, maxChars: nat)
    ensures TruncateChars(TruncateChars(s, maxChars), maxChars) == TruncateChars(s, maxChars)
    ensures TruncateChars(s, maxChars) + s[|TruncateChars(s, maxChars)|..] == s
  {
  }

  // ----- truncate_text -----

  /** The source's `truncate_text`: it compares the UTF-8 byte size with
      `maxLength` and skips `byteSize - maxLength / 2` characters for the
      tail, mixing bytes with characters. */
  function TruncateTextAsWritten(value: string, maxLength: nat): (r: string)
    ensures Utf8Length(value) <= maxLength ==> r == value
  {
    var length := Utf8Length(value);
    if length > maxLength then
      var split := maxLength / 2;
      var first := value[..if split <= |value| then split else |value|];
      var skip := length - split;
      var last := value[if skip <= |value| then skip else |value|..];
      first + "..." + last
    else value
  }

  /** Middle-ellipsis truncation counted in characters throughout: the
      first and last `maxLength / 2` characters around "...". */
  function TruncateText(value: string, maxLength: nat): (r: string)
    ensures |value| <= maxLength ==> r == value
    ensures |value| > maxLength ==> |r| == 2 * (maxLength / 2) + 3 <= maxLength + 3
  {
    if |value| > maxLength then
      var split := maxLength / 2;
      value[..split] + "..." + value[|value| - split..]
    else value
  }

  /** A short value comes back unchanged; a long one keeps its first and
      last `maxLength / 2` characters around "...", for a total of
      `2 * (maxLength / 2) + 3` characters. */
  lemma TruncateTextShape(value: string, maxLength: nat)
    ensures |value| <= maxLength ==> TruncateText(value, maxLength) == value
    ensures |value| > maxLength ==>
      var r := TruncateText(value, maxLength);
      var split := maxLength / 2;
      && |r| == 2 * split + 3
      && r[..split] == TruncateChars(value, split)
      && r[split..split + 3] == "..."
      && r[split + 3..] == value[|value| - split..]
  {
  }

  /** On ASCII text, where a byte is a character, the source agrees with the
      character-counted truncation. */
  lemma TruncateTextAsciiAgrees(value: string, maxLength: nat)
    requires IsAscii(value)
    ensures TruncateTextAsWritten(value, maxLength) == TruncateText(value, maxLength)
    ensures Utf8Length(value) <= maxLength ==> TruncateTextAsWritten(value, maxLength) == value
  {
    Utf8LengthAscii(value);
  }

  /** Five two-byte characters fit a limit of 6 characters but not 6
      bytes: the source shortens the text to three characters and an
      ellipsis, losing the tail, while the character count leaves it as is.
      With ten of them the source's tail is empty instead of three long. */
  lemma TruncateTextLosesTail()
    ensures TruncateTextAsWritten("ééééé", 6) == "ééé..."
    ensures TruncateText("ééééé", 6) == "ééééé"
    ensures TruncateTextAsWritten("éééééééééé", 6) == "ééé..."
    ensures TruncateText("éééééééééé", 6) == "ééé...ééé"
  {
    var e := "é";
    assert Utf8Length("ééééé") == 10 by {
      assert "ééééé"[..4] == "éééé" && "éééé"[..3] == "ééé" && "ééé"[..2] == "éé" && "éé"[..1] == "é" && "é"[..0] == "";
    }
    assert Utf8Length("éééééééééé") == 20 by {
      assert "éééééééééé"[..9] == "ééééééééé" && "ééééééééé"[..8] == "éééééééé";
      assert "éééééééé"[..7] == "ééééééé" && "ééééééé"[..6] == "éééééé" && "éééééé"[..5] == "ééééé";
      assert "ééééé"[..4] == "éééé" && "éééé"[..3] == "ééé" && "ééé"[..2] == "éé" && "éé"[..1] == "é" && "é"[..0] == "";
    }
  }

  // ----- format_duration -----

  function DigitChar(d: nat): (c: char)
    requires d < 10
    ensures '0' <= c <= '9'
  {
    ['0', '1', '2', '3', '4', '5', '6', '7', '8', '9'][d]
  }

  function DigitValue(c: char): nat
  {
    if '0' <= c <= '9' then (c as int) - ('0' as int) else 0
  }

  predicate AllDigits(s: string)
  {
    forall i :: 0 <= i < |s| ==> '0' <= s[i] <= '9'
  }

  /** The decimal numeral of `n`, as `{}` formats an unsigned integer. */
  function Decimal(n: nat): (s: string)
    ensures 1 <= |s| && AllDigits(s)
    ensures n < 10 <==> |s| == 1
    decreases n
  {
    if n < 10 then [DigitChar(n)] else Decimal(n / 10) + [DigitChar(n % 10)]
  }

  /** The value of a numeral, read left to right. */
  function ParseDecimal(s: string): nat
    decreases |s|
  {
    if s == [] then 0 else 10 * ParseDecimal(s[..|s| - 1]) + DigitValue(s[|s| - 1])
  }

  lemma {:induction false} DecimalRoundTrip(n: nat)
    ensures ParseDecimal(Decimal(n)) == n
    decreases n
  {
    if n >= 10 {
      DecimalRoundTrip(n / 10);
      var s := Decimal(n);
      assert s[..|s| - 1] == Decimal(n / 10);
    }
  }

  /** `{:>2}`: right-aligned in a field of width 2, padded with spaces. */
  function PadLeft2(s: string): (r: string)
    ensures |s| >= 2 ==> r == s
    ensures |s| < 2 ==> |r| == 2 && r[2 - |s|..] == s && forall i :: 0 <= i < 2 - |s| ==> r[i] == ' '
  {
    if |s| >= 2 then s else seq(2 - |s|, _ => ' ') + s
  }

  /** The label for a duration of `secs` whole seconds: "{h}h {m:>2}m" with
      at least one hour, "{m:>2}m" otherwise. */
  function FormatDuration(secs: nat): (r: string)
    ensures |r| >= 3 && r[|r| - 1] == 'm'
    ensures secs < 3600 <==> |r| == 3
  {
    var h := secs / 60 / 60;
    var m := secs / 60 % 60;
    if h > 0 then Decimal(h) + "h " + PadLeft2(Decimal(m)) + "m"
    else PadLeft2(Decimal(m)) + "m"
  }

  /** Index of the first `c` in `s`, or `|s|`. */
  function IndexOf(s: string, c: char): (i: nat)
    ensures i <= |s|
    ensures i < |s| ==> s[i] == c
    ensures forall j :: 0 <= j < i ==> s[j] != c
  {
    if s == [] then 0 else if s[0] == c then 0 else 1 + IndexOf(s[1..], c)
  }

  function TrimLeadingSpaces(s: string): string
    decreases |s|
  {
    if s != [] && s[0] == ' ' then TrimLeadingSpaces(s[1..]) else s
  }

  /** Reads a label back into (hours, minutes): the numeral before "h " if
      there is one, then the padded minutes before the final "m". */
  function ParseDuration(text: string): (r: (int, int))
  {
    var body := if text != [] then text[..|text| - 1] else text;
    var i := IndexOf(body, 'h');
    if i < |body| then
      (ParseDecimal(body[..i]), ParseDecimal(TrimLeadingSpaces(body[if i + 2 <= |body| then i + 2 else |body|..])))
    else (0, ParseDecimal(TrimLeadingSpaces(body)))
  }

  lemma TrimPadded(s: string)
    requires 1 <= |s| && AllDigits(s)
    ensures TrimLeadingSpaces(PadLeft2(s)) == s
  {
    if |s| < 2 {
      assert PadLeft2(s) == [' '] + s;
      assert PadLeft2(s)[1..] == s;
    }
  }

  /** The label encodes the hours and minutes exactly: reading it back
      gives the whole hours and the minutes left over, so the minutes are below 60
      and leftover seconds are dropped. */
  lemma FormatDurationRoundTrip(secs: nat)
    ensures ParseDuration(FormatDuration(secs)) == (secs / 60 / 60, secs / 60 % 60)
    ensures secs / 60 % 60 < 60
  {
    var h := secs / 60 / 60;
    var m := secs / 60 % 60;
    var mm := PadLeft2(Decimal(m));
    DecimalRoundTrip(h);
    DecimalRoundTrip(m);
    TrimPadded(Decimal(m));
    var text := FormatDuration(secs);
    if h > 0 {
      var dh := Decimal(h);
      assert text == dh + "h " + mm + "m";
      var body := text[..|text| - 1];
      assert body == dh + "h " + mm;
      assert IndexOf(body, 'h') == |dh| by {
        assert body[|dh|] == 'h';
        assert forall j :: 0 <= j < |dh| ==> body[j] == dh[j];
      }
      assert body[..|dh|] == dh;
      assert body[|dh| + 2..] == mm;
    } else {
      var body := text[..|text| - 1];
      assert body == mm;
      assert IndexOf(body, 'h') == |body| by {
        assert forall j :: 0 <= j < |body| ==> body[j] == ' ' || '0' <= body[j] <= '9';
      }
    }
  }

  /** Two durations get the same label exactly when they have the same
      number of whole minutes. */
  lemma FormatDurationSameMinutes(a: nat, b: nat)
    ensures FormatDuration(a) == FormatDuration(b) <==> a / 60 == b / 60
  {
    if FormatDuration(a) == FormatDuration(b) {
      FormatDurationRoundTrip(a);
      FormatDurationRoundTrip(b);
      var qa, qb := a / 60, b / 60;
      assert qa == 60 * (qa / 60) + qa % 60;
      assert qb == 60 * (qb / 60) + qb % 60;
    }
  }

  // ----- strip_markup_tags -----

  /** `str::replace`: every leftmost, non-overlapping occurrence of `pat`
      replaced by `rep`, scanning left to right. */
  function ReplaceAll(s: string, pat: string, rep: string): (r: string)
    requires |pat| > 0
    ensures forall c :: c in r ==> c in s || c in rep
    ensures rep == pat ==> r == s
    decreases |s|
  {
    if |s| < |pat| then s
    else if s[..|pat|] == pat then rep + ReplaceAll(s[|pat|..], pat, rep)
    else [s[0]] + ReplaceAll(s[1..], pat, rep)
  }

  /** Text without the first character of `pat` has nothing to replace. */
  lemma {:induction false} ReplaceAllAbsent(s: string, pat: string, rep: string)
    requires |pat| > 0 && pat[0] !in s
    ensures ReplaceAll(s, pat, rep) == s
    decreases |s|
  {
    if |s| >= |pat| {
      assert s[..|pat|][0] == s[0];
      ReplaceAllAbsent(s[1..], pat, rep);
    }
  }

  /** Text without the first character of `pat` is copied through ahead of
      the replacements. */
  lemma {:induction false} ReplaceAllSkip(a: string, b: string, pat: string, rep: string)
    requires |pat| > 0 && pat[0] !in a
    ensures ReplaceAll(a + b, pat, rep) == a + ReplaceAll(b, pat, rep)
    decreases |a|
  {
    if a != [] {
      var s := a + b;
      if |s| < |pat| {
        assert ReplaceAll(s, pat, rep) == s;
        assert ReplaceAll(b, pat, rep) == b;
      } else {
        assert s[..|pat|] != pat by { assert s[..|pat|][0] == a[0]; }
        assert s[0] == a[0] && s[1..] == a[1..] + b;
        assert ReplaceAll(s, pat, rep) == [a[0]] + ReplaceAll(a[1..] + b, pat, rep);
        ReplaceAllSkip(a[1..], b, pat, rep);
        assert [a[0]] + (a[1..] + ReplaceAll(b, pat, rep)) == a + ReplaceAll(b, pat, rep);
      }
    } else {
      assert a + b == b;
    }
  }

  /** Whether `s` starts with a match of `<[^>]+>`: a '<', at least one
      character that is not '>', then the first '>'. */
  predicate StartsTag(s: string)
  {
    |s| > 0 && s[0] == '<' && 2 <= IndexOf(s, '>') < |s|
  }

  /** The regex replacement of every match of `<[^>]+>` by nothing: at each
      position a match, which ends at the first '>', is dropped whole; any
      other character is kept and the scan moves one on. */
  function StripTags(s: string): (r: string)
    ensures forall c :: c in r ==> c in s
    decreases |s|
  {
    if s == [] then []
    else if StartsTag(s) then StripTags(s[IndexOf(s, '>') + 1..])
    else [s[0]] + StripTags(s[1..])
  }

  /** No match of `<[^>]+>` anywhere in `s`. */
  predicate NoTag(s: string)
  {
    forall i :: 0 <= i < |s| ==> !StartsTag(s[i..])
  }

  /** After tag removal no match is left: a kept '<' is either followed by
      '>' or has no '>' anywhere after it. */
  lemma {:induction false} StripTagsLeavesNoTag(s: string)
    ensures NoTag(StripTags(s))
    decreases |s|
  {
    if s != [] {
      if StartsTag(s) {
        StripTagsLeavesNoTag(s[IndexOf(s, '>') + 1..]);
      } else {
        var rest := StripTags(s[1..]);
        var r := StripTags(s);
        StripTagsLeavesNoTag(s[1..]);
        assert r == [s[0]] + rest;
        forall i | 0 <= i < |r| ensures !StartsTag(r[i..]) {
          if i > 0 {
            assert r[i..] == rest[i - 1..];
          } else if s[0] == '<' {
            var k := IndexOf(s, '>');
            if k < |s| {
              assert k == 1;
              var t := s[1..];
              assert t[0] == '>' && !StartsTag(t);
              assert rest == [t[0]] + StripTags(t[1..]);
              assert r[1] == '>';
              assert IndexOf(r, '>') == 1;
            } else {
              assert '>' !in s;
              assert '>' !in rest;
              assert forall j :: 0 <= j < |r| ==> r[j] != '>';
            }
          }
        }
      }
    }
  }

  /** Text without '<', or without '>', holds no match, so it comes back
      whole: a lone '<' as in "a < b" survives. */
  lemma {:induction false} StripTagsNoAngle(s: string)
    requires '<' !in s || '>' !in s
    ensures StripTags(s) == s
    decreases |s|
  {
    if s != [] {
      StripTagsNoAngle(s[1..]);
    }
  }

  /** `<br>` and its variants become line breaks before tag removal; no
      other character is introduced. */
  function ReplaceBreaks(s: string): (r: string)
    ensures forall c :: c in r ==> c in s || c == '\n'
  {
    ReplaceAll(ReplaceAll(ReplaceAll(s, "<br>", "\n"), "<br/>", "\n"), "<br />", "\n")
  }

  /** The five entities, decoded one after another with `&amp;` first. */
  function DecodeEntities(s: string): (r: string)
    ensures forall c :: c in r ==> c in s || c in "&<>\"'"
  {
    ReplaceAll(ReplaceAll(ReplaceAll(ReplaceAll(ReplaceAll(s, "&amp;", "&"), "&lt;", "<"), "&gt;", ">"), "&quot;", "\""), "&apos;", "'")
  }

  /** `strip_markup_tags`: the only characters it can add are the line
      break of a `<br>` and the characters of decoded entities. */
  function StripMarkupTags(s: string): (r: string)
    ensures forall c :: c in r ==> c in s || c in "\n&<>\"'"
  {
    DecodeEntities(StripTags(ReplaceBreaks(s)))
  }

  /** An occurrence of `pat` between text free of its first character is
      replaced, and nothing else is. */
  lemma ReplaceAt(a: string, b: string, pat: string, rep: string)
    requires |pat| > 0 && pat[0] !in a && pat[0] !in b
    ensures ReplaceAll(a + pat + b, pat, rep) == a + rep + b
  {
    ReplaceAllSkip(a, pat + b, pat, rep);
    assert (pat + b)[..|pat|] == pat && (pat + b)[|pat|..] == b;
    ReplaceAllAbsent(b, pat, rep);
    assert a + pat + b == a + (pat + b);
  }

  /** A piece `v` that starts like `pat` but is not it is left alone. */
  lemma ReplaceMisses(a: string, v: string, b: string, pat: string, rep: string)
    requires |pat| > 0 && pat[0] !in a && pat[0] !in b
    requires |v| >= |pat| && v[..|pat|] != pat && pat[0] !in v[1..]
    ensures ReplaceAll(a + v + b, pat, rep) == a + v + b
  {
    var t := v + b;
    ReplaceAllSkip(a, t, pat, rep);
    assert t[..|pat|] == v[..|pat|];
    assert t[1..] == v[1..] + b;
    ReplaceAllAbsent(t[1..], pat, rep);
    assert t == [t[0]] + t[1..];
    assert a + v + b == a + t;
  }

  /** Each of `<br>`, `<br/>` and `<br />` becomes one line break, whatever
      plain text surrounds it. */
  lemma BreaksBecomeNewlines(a: string, b: string)
    requires '<' !in a && '<' !in b
    ensures ReplaceBreaks(a + "<br>" + b) == a + "\n" + b
    ensures ReplaceBreaks(a + "<br/>" + b) == a + "\n" + b
    ensures ReplaceBreaks(a + "<br />" + b) == a + "\n" + b
  {
    var out := a + "\n" + b;
    assert '<' !in out;
    ReplaceAllAbsent(out, "<br/>", "\n");
    ReplaceAllAbsent(out, "<br />", "\n");

    ReplaceAt(a, b, "<br>", "\n");

    assert "<br/>"[..4] != "<br>" && '<' !in "<br/>"[1..];
    ReplaceMisses(a, "<br/>", b, "<br>", "\n");
    ReplaceAt(a, b, "<br/>", "\n");

    assert "<br />"[..4] != "<br>" && "<br />"[..5] != "<br/>" && '<' !in "<br />"[1..];
    ReplaceMisses(a, "<br />", b, "<br>", "\n");
    ReplaceMisses(a, "<br />", b, "<br/>", "\n");
    ReplaceAt(a, b, "<br />", "\n");
  }

  /** A piece `t` that does not start with `pat`, and holds no other
      start of it, is left alone, however short it is. */
  lemma ReplaceNearMiss(a: string, t: string, pat: string, rep: string)
    requires |pat| > 0 && pat[0] !in a && |t| > 0 && pat[0] !in t[1..]
    requires |t| < |pat| || t[..|pat|] != pat
    ensures ReplaceAll(a + t, pat, rep) == a + t
  {
    ReplaceAllSkip(a, t, pat, rep);
    if |t| >= |pat| {
      assert ReplaceAll(t, pat, rep) == [t[0]] + ReplaceAll(t[1..], pat, rep);
    }
    ReplaceAllAbsent(t[1..], pat, rep);
    assert t == [t[0]] + t[1..];
  }

  /** An entity other than `&amp;` in text without '&' is decoded to its
      character; the stages before its own leave it alone and the stages
      after find no '&'. */
  lemma DecodeLt(a: string, b: string)
    requires '&' !in a && '&' !in b
    ensures DecodeEntities(a + "&lt;" + b) == a + "<" + b
  {
    var t := "&lt;" + b;
    assert t[1] == 'l' && t[1..] == "lt;" + b;
    ReplaceNearMiss(a, t, "&amp;", "&");
    assert a + "&lt;" + b == a + t;
    ReplaceAt(a, b, "&lt;", "<");
    var out := a + "<" + b;
    assert '&' !in out;
    ReplaceAllAbsent(out, "&gt;", ">");
    ReplaceAllAbsent(out, "&quot;", "\"");
    ReplaceAllAbsent(out, "&apos;", "'");
  }

  lemma DecodeGt(a: string, b: string)
    requires '&' !in a && '&' !in b
    ensures DecodeEntities(a + "&gt;" + b) == a + ">" + b
  {
    var t := "&gt;" + b;
    assert t[1] == 'g' && t[1..] == "gt;" + b;
    ReplaceNearMiss(a, t, "&amp;", "&");
    ReplaceNearMiss(a, t, "&lt;", "<");
    assert a + "&gt;" + b == a + t;
    ReplaceAt(a, b, "&gt;", ">");
    var out := a + ">" + b;
    assert '&' !in out;
    ReplaceAllAbsent(out, "&quot;", "\"");
    ReplaceAllAbsent(out, "&apos;", "'");
  }

  lemma DecodeQuot(a: string, b: string)
    requires '&' !in a && '&' !in b
    ensures DecodeEntities(a + "&quot;" + b) == a + "\"" + b
  {
    var t := "&quot;" + b;
    assert t[1] == 'q' && t[1..] == "quot;" + b;
    ReplaceNearMiss(a, t, "&amp;", "&");
    ReplaceNearMiss(a, t, "&lt;", "<");
    ReplaceNearMiss(a, t, "&gt;", ">");
    assert a + "&quot;" + b == a + t;
    ReplaceAt(a, b, "&quot;", "\"");
    var out := a + "\"" + b;
    assert '&' !in out;
    ReplaceAllAbsent(out, "&apos;", "'");
  }

  lemma DecodeApos(a: string, b: string)
    requires '&' !in a && '&' !in b
    ensures DecodeEntities(a + "&apos;" + b) == a + "'" + b
  {
    var t := "&apos;" + b;
    assert t[1] == 'a' && t[2] == 'p' && t[1..] == "apos;" + b;
    ReplaceNearMiss(a, t, "&amp;", "&");
    ReplaceNearMiss(a, t, "&lt;", "<");
    ReplaceNearMiss(a, t, "&gt;", ">");
    ReplaceNearMiss(a, t, "&quot;", "\"");
    assert a + "&apos;" + b == a + t;
    ReplaceAt(a, b, "&apos;", "'");
  }

  /** A lone '&' with no ';' after it starts no entity. */
  lemma LoneAmpersandKept(a: string, b: string, pat: string, rep: string)
    requires '&' !in a && '&' !in b && ';' !in b
    requires |pat| >= 2 && pat[0] == '&' && pat[|pat| - 1] == ';'
    ensures ReplaceAll(a + "&" + b, pat, rep) == a + "&" + b
  {
    var t := "&" + b;
    assert t[1..] == b;
    if |t| >= |pat| {
      assert t[..|pat|][|pat| - 1] == b[|pat| - 2];
    }
    ReplaceNearMiss(a, t, pat, rep);
    assert a + "&" + b == a + t;
  }

  /** `&amp;` becomes '&', and that '&' starts no later entity when no ';'
      follows it. */
  lemma DecodeAmp(a: string, b: string)
    requires '&' !in a && '&' !in b && ';' !in b
    ensures DecodeEntities(a + "&amp;" + b) == a + "&" + b
  {
    ReplaceAt(a, b, "&amp;", "&");
    LoneAmpersandKept(a, b, "&lt;", "<");
    LoneAmpersandKept(a, b, "&gt;", ">");
    LoneAmpersandKept(a, b, "&quot;", "\"");
    LoneAmpersandKept(a, b, "&apos;", "'");
  }

  /** Each of the five entities, in text without '&', decodes to its
      character. */
  lemma EntitiesDecode(a: string, b: string)
    requires '&' !in a && '&' !in b
    ensures DecodeEntities(a + "&lt;" + b) == a + "<" + b
    ensures DecodeEntities(a + "&gt;" + b) == a + ">" + b
    ensures DecodeEntities(a + "&quot;" + b) == a + "\"" + b
    ensures DecodeEntities(a + "&apos;" + b) == a + "'" + b
    ensures ';' !in b ==> DecodeEntities(a + "&amp;" + b) == a + "&" + b
  {
    DecodeLt(a, b);
    DecodeGt(a, b);
    DecodeQuot(a, b);
    DecodeApos(a, b);
    if ';' !in b {
      DecodeAmp(a, b);
    }
  }

  /** Text before the first '<' is kept as it is. */
  lemma {:induction false} StripTagsSkipsPlain(a: string, b: string)
    requires '<' !in a
    ensures StripTags(a + b) == a + StripTags(b)
    decreases |a|
  {
    if a != [] {
      assert (a + b)[0] == a[0] && (a + b)[1..] == a[1..] + b;
      assert !StartsTag(a + b);
      assert StripTags(a + b) == [a[0]] + StripTags(a[1..] + b);
      StripTagsSkipsPlain(a[1..], b);
      assert [a[0]] + (a[1..] + StripTags(b)) == a + StripTags(b);
    } else {
      assert a + b == b;
    }
  }

  /** A '<', at least one character other than '>', and the '>' that
      follows are removed together. */
  lemma StripTagsDropsTag(x: string, b: string)
    requires |x| >= 1 && '>' !in x
    ensures StripTags("<" + x + ">" + b) == StripTags(b)
  {
    var s := "<" + x + ">" + b;
    assert s[|x| + 1] == '>';
    assert forall j :: 0 <= j < |x| + 1 ==> s[j] != '>' by {
      assert forall j :: 1 <= j < |x| + 1 ==> s[j] == x[j - 1];
    }
    assert IndexOf(s, '>') == |x| + 1;
    assert s[|x| + 2..] == b;
  }

  /** "<>" is no match, since `[^>]+` needs a character: both are kept. */
  lemma StripTagsKeepsEmptyBrackets(b: string)
    ensures StripTags("<>" + b) == "<>" + StripTags(b)
  {
    var s := "<>" + b;
    assert IndexOf(s, '>') == 1;
    assert s[1..] == ">" + b && (">" + b)[1..] == b;
  }

  /** The text between tag removal and entity decoding holds no tag. */
  lemma StrippedHasNoTag(s: string)
    ensures NoTag(StripTags(ReplaceBreaks(s)))
  {
    StripTagsLeavesNoTag(ReplaceBreaks(s));
  }

  /** Plain text, with neither '<' nor '&', passes through unchanged. */
  lemma StripMarkupPlainText(s: string)
    requires '<' !in s && '&' !in s
    ensures StripMarkupTags(s) == s
  {
    ReplaceAllAbsent(s, "<br>", "\n");
    ReplaceAllAbsent(s, "<br/>", "\n");
    ReplaceAllAbsent(s, "<br />", "\n");
    StripTagsNoAngle(s);
    ReplaceAllAbsent(s, "&amp;", "&");
    ReplaceAllAbsent(s, "&lt;", "<");
    ReplaceAllAbsent(s, "&gt;", ">");
    ReplaceAllAbsent(s, "&quot;", "\"");
    ReplaceAllAbsent(s, "&apos;", "'");
  }

  /** Sequential decoding decodes twice: "&amp;lt;" becomes "&lt;" and
      then "<". */
  lemma DecodeIsSequential()
    ensures DecodeEntities("&amp;lt;") == "<"
  {
    assert ReplaceAll("&amp;lt;", "&amp;", "&") == "&lt;" by {
      assert "&amp;lt;"[..5] == "&amp;" && "&amp;lt;"[5..] == "lt;";
      assert ReplaceAll("lt;", "&amp;", "&") == "lt;";
    }
    assert ReplaceAll("&lt;", "&lt;", "<") == "<" by {
      assert "&lt;"[..4] == "&lt;" && "&lt;"[4..] == [];
    }
    ReplaceAllAbsent("<", "&gt;", ">");
    ReplaceAllAbsent("<", "&quot;", "\"");
    ReplaceAllAbsent("<", "&apos;", "'");
  }

  /** Through the whole of `strip_markup_tags`, a line break tag between
      plain text becomes exactly one newline. */
  lemma StripMarkupBreaks(a: string, b: string)
    requires '<' !in a && '&' !in a && '<' !in b && '&' !in b
    ensures StripMarkupTags(a + "<br>" + b) == a + "\n" + b
    ensures StripMarkupTags(a + "<br/>" + b) == a + "\n" + b
    ensures StripMarkupTags(a + "<br />" + b) == a + "\n" + b
  {
    BreaksBecomeNewlines(a, b);
    var out := a + "\n" + b;
    assert '<' !in out && '&' !in out;
    StripTagsNoAngle(out);
    ReplaceAllAbsent(out, "&amp;", "&");
    ReplaceAllAbsent(out, "&lt;", "<");
    ReplaceAllAbsent(out, "&gt;", ">");
    ReplaceAllAbsent(out, "&quot;", "\"");
    ReplaceAllAbsent(out, "&apos;", "'");
    assert DecodeEntities(StripTags(out)) == out;
  }

  /** A formatting tag disappears with its closing tag, leaving the text
      between. */
  lemma StripTagsExample()
    ensures StripTags("<b>x</b>") == "x"
  {
    assert "<" + "b" + ">" + "x</b>" == "<b>x</b>";
    StripTagsDropsTag("b", "x</b>");
    assert "x" + "</b>" == "x</b>";
    StripTagsSkipsPlain("x", "</b>");
    assert "<" + "/b" + ">" + [] == "</b>";
    StripTagsDropsTag("/b", []);
    assert "x" + [] == "x";
  }
}
