/**
 * The configuration text `set_wifi` builds with `template.format(ssid,
 * password)` before it starts `wpa_supplicant` with it. `Format` is
 * Python's `str.format` for the forms the template uses: literal text,
 * doubled braces and empty `{}` fields taking the positional arguments in
 * turn.
 */
module WpaConfig {
  import opened Wrappers
  import opened Credentials

  /**
   * What `str.format` raises. `Unsupported` marks field forms the template
   * does not use (names, numbers, indexing, conversions, format specs);
   * they are outside this model.
   */
  datatype FormatError = ValueError | IndexError | Unsupported

  /** A character that stands for itself in a format string. */
  predicate Plain(c: char) {
    c != '{' && c != '}'
  }

  /** Every character of `s` stands for itself. */
  predicate AllPlain(s: string) {
    forall i :: 0 <= i < |s| ==> Plain(s[i])
  }

  /** Plain text that also cannot end a field name early (no `:`, `!` or `[`). */
  predicate NameText(s: string) {
    forall i :: 0 <= i < |s| ==> Plain(s[i]) && s[i] != ':' && s[i] != '!' && s[i] != '['
  }

  function Prepend(s: string, r: Result<string, FormatError>): (q: Result<string, FormatError>)
    ensures q.Success? <==> r.Success?
    ensures q.Success? ==> q.value == s + r.value
    ensures q.Failure? ==> q.error == r.error
  {
    match r
    case Success(v) => Success(s + v)
    case Failure(e) => Failure(e)
  }

  /**
   * The name of a replacement field whose `{` has been read, and the text
   * after its closing `}`. A `{` inside the name, or no closing `}`, is a
   * `ValueError`.
   */
  function FieldName(t: string): (r: Result<(string, string), FormatError>)
    decreases |t|
    ensures r.Success? ==> |r.value.1| < |t|
  {
    if t == [] then Failure(ValueError)
    else if t[0] == '{' then Failure(ValueError)
    else if t[0] == '}' then Success(("", t[1..]))
    else if t[0] == ':' || t[0] == '!' || t[0] == '[' then Failure(Unsupported)
    else
      match FieldName(t[1..])
      case Failure(e) => Failure(e)
      case Success((name, rest)) => Success(([t[0]] + name, rest))
  }

  /** `t.format(*args)`, with `next` the index of the next automatically numbered argument. */
  function FormatFrom(t: string, args: seq<string>, next: nat): (r: Result<string, FormatError>)
    decreases |t|
  {
    if t == [] then Success("")
    else if t[0] == '{' then
      if |t| >= 2 && t[1] == '{' then Prepend("{", FormatFrom(t[2..], args, next))
      else match FieldName(t[1..])
        case Failure(e) => Failure(e)
        case Success((name, rest)) =>
          if name != "" then Failure(Unsupported)
          else if next >= |args| then Failure(IndexError)
          else Prepend(args[next], FormatFrom(rest, args, next + 1))
    else if t[0] == '}' then
      if |t| >= 2 && t[1] == '}' then Prepend("}", FormatFrom(t[2..], args, next))
      else Failure(ValueError)
    else Prepend([t[0]], FormatFrom(t[1..], args, next))
  }

  /*
   * The template, cut where `str.format` treats it specially. Each piece
   * is split into short literals only so that their plainness is quick to
   * check.
   */
  const HEAD: string := "\nctrl_interface=DIR=" + "/var/run/wpa_supplicant" + " GROUP=wheel\nnetwork="
  const SSID_KEY: string := "\n    ssid=\""
  const PSK_KEY: string := "\"\n    scan_ssid=1\n" + "    key_mgmt=WPA-PSK\n" + "    psk=\""
  const CLOSE_QUOTE: string := "\"\n"
  const TAIL: string := "\n    "

  /** The template with `open` and `close` around the `network` block. */
  function Template(open: string, close: string): string {
    HEAD + open + SSID_KEY + "{}" + PSK_KEY + "{}" + CLOSE_QUOTE + close + TAIL
  }

  /** `set_wifi`'s template as written: the block's braces are single, so they start and end a field. */
  const TEMPLATE: string := Template("{", "}")

  /** The template with the block's braces doubled, as `str.format` needs for literal braces. */
  const FIXED_TEMPLATE: string := Template("{{", "}}")

  lemma PiecesArePlain()
    ensures AllPlain(HEAD) && NameText(SSID_KEY) && AllPlain(PSK_KEY) && AllPlain(CLOSE_QUOTE) && AllPlain(TAIL)
  {
    PlainAppend("\nctrl_interface=DIR=", "/var/run/wpa_supplicant");
    PlainAppend("\nctrl_interface=DIR=" + "/var/run/wpa_supplicant", " GROUP=wheel\nnetwork=");
    PlainAppend("\"\n    scan_ssid=1\n", "    key_mgmt=WPA-PSK\n");
    PlainAppend("\"\n    scan_ssid=1\n" + "    key_mgmt=WPA-PSK\n", "    psk=\"");
  }

  lemma PlainAppend(a: string, b: string)
    requires AllPlain(a) && AllPlain(b)
    ensures AllPlain(a + b)
  {
    forall i | 0 <= i < |a + b|
      ensures Plain((a + b)[i])
    {
      if i >= |a| { assert (a + b)[i] == b[i - |a|]; }
    }
  }

  /** Plain text is copied to the output as it is. */
  lemma {:induction false} LiteralText(a: string, rest: string, args: seq<string>, next: nat)
    requires AllPlain(a)
    ensures FormatFrom(a + rest, args, next) == Prepend(a, FormatFrom(rest, args, next))
    decreases |a|
  {
    if a != [] {
      var t := a + rest;
      assert t[0] == a[0] && Plain(a[0]) && t[1..] == a[1..] + rest;
      assert FormatFrom(t, args, next) == Prepend([a[0]], FormatFrom(a[1..] + rest, args, next));
      assert AllPlain(a[1..]);
      LiteralText(a[1..], rest, args, next);
      var r := FormatFrom(rest, args, next);
      if r.Success? {
        assert [a[0]] + (a[1..] + r.value) == a + r.value;
      }
    } else {
      assert a + rest == rest;
      var r := FormatFrom(rest, args, next);
      if r.Success? {
        assert a + r.value == r.value;
      }
    }
  }

  /** A field name that runs into a `{` is a `ValueError`. */
  lemma {:induction false} NameMeetsBrace(a: string, rest: string)
    requires NameText(a)
    ensures FieldName(a + "{" + rest) == Failure(ValueError)
    decreases |a|
  {
    if a != [] {
      var t := a + "{" + rest;
      assert t[0] == a[0] && t[1..] == a[1..] + "{" + rest;
      NameMeetsBrace(a[1..], rest);
    }
  }

  /**
   * As written, `template.format(ssid, password)` raises `ValueError`
   * ("unexpected '{' in field name") for every ssid and password: the
   * block's `{` opens a field whose name runs into the `{` of `{}`. The
   * `except` around it swallows the error, so no configuration is written
   * and `wpa_supplicant` is not restarted.
   */
  lemma TemplateAsWrittenRaises(ssid: string, password: string)
    ensures FormatFrom(TEMPLATE, [ssid, password], 0) == Failure(ValueError)
  {
    var after := PSK_KEY + ("{}" + (CLOSE_QUOTE + ("}" + TAIL)));
    TemplateNested("{", "}");
    assert "{}" + after == "{" + ("}" + after);
    PiecesArePlain();
    BraceInFieldName(HEAD, SSID_KEY, "}" + after, [ssid, password], 0);
  }

  /** After plain text, a field whose name runs into a `{` raises `ValueError`. */
  lemma BraceInFieldName(head: string, name: string, rest: string, args: seq<string>, next: nat)
    requires AllPlain(head) && NameText(name) && |name| > 0
    ensures FormatFrom(head + ("{" + (name + ("{" + rest))), args, next) == Failure(ValueError)
  {
    var field := "{" + (name + ("{" + rest));
    LiteralText(head, field, args, next);
    assert field[0] == '{' && field[1] == name[0] && Plain(name[0]);
    assert field[1..] == name + "{" + rest;
    NameMeetsBrace(name, rest);
  }

  /** An empty field takes the next argument as it is. */
  lemma EmptyField(rest: string, args: seq<string>, next: nat)
    requires next < |args|
    ensures FormatFrom("{}" + rest, args, next) == Prepend(args[next], FormatFrom(rest, args, next + 1))
  {
    var t := "{}" + rest;
    assert t[0] == '{' && t[1] == '}' && t[1..] == "}" + rest && ("}" + rest)[1..] == rest;
  }

  /** Doubled braces stand for one brace. */
  lemma DoubledBrace(b: char, rest: string, args: seq<string>, next: nat)
    requires b == '{' || b == '}'
    ensures FormatFrom([b, b] + rest, args, next) == Prepend([b], FormatFrom(rest, args, next))
  {
    var t := [b, b] + rest;
    assert t[0] == b && t[1] == b && t[2..] == rest;
  }

  /**
   * The configuration `set_wifi` evidently means to write: the template
   * with the block's braces doubled formats to the `network` block holding
   * the ssid and the password, whatever they are.
   */
  function SetWifiConfig(c: WifiCredentials): (r: Result<string, FormatError>)
    ensures r == Success(HEAD + "{" + SSID_KEY + c.ssid + PSK_KEY + c.password + CLOSE_QUOTE + "}" + TAIL)
  {
    FixedTemplateFormats(c.ssid, c.password);
    FormatFrom(FIXED_TEMPLATE, [c.ssid, c.password], 0)
  }

  lemma FixedTemplateFormats(ssid: string, password: string)
    ensures FormatFrom(FIXED_TEMPLATE, [ssid, password], 0)
         == Success(HEAD + "{" + SSID_KEY + ssid + PSK_KEY + password + CLOSE_QUOTE + "}" + TAIL)
  {
    var args := [ssid, password];
    PiecesArePlain();
    var s7 := "}}" + TAIL;
    var s6 := CLOSE_QUOTE + s7;
    var s5 := "{}" + s6;
    var s4 := PSK_KEY + s5;
    var s3 := "{}" + s4;
    var s2 := SSID_KEY + s3;
    var s1 := "{{" + s2;
    var o6 := CLOSE_QUOTE + "}" + TAIL;
    var o4 := PSK_KEY + password + o6;
    var o2 := SSID_KEY + ssid + o4;
    assert FormatFrom(s7, args, 2) == Success("}" + TAIL) by {
      LiteralText(TAIL, "", args, 2);
      assert TAIL + "" == TAIL;
      assert s7 == ['}', '}'] + TAIL;
      DoubledBrace('}', TAIL, args, 2);
    }
    assert FormatFrom(s6, args, 2) == Success(o6) by {
      LiteralText(CLOSE_QUOTE, s7, args, 2);
      AppendAssoc(CLOSE_QUOTE, "}", TAIL);
    }
    assert FormatFrom(s4, args, 1) == Success(o4) by {
      EmptyField(s6, args, 1);
      LiteralText(PSK_KEY, s5, args, 1);
      AppendAssoc(PSK_KEY, password, o6);
    }
    assert FormatFrom(s2, args, 0) == Success(o2) by {
      EmptyField(s4, args, 0);
      assert AllPlain(SSID_KEY);
      LiteralText(SSID_KEY, s3, args, 0);
      AppendAssoc(SSID_KEY, ssid, o4);
    }
    assert FormatFrom(s1, args, 0) == Success("{" + o2) by {
      assert s1 == ['{', '{'] + s2;
      DoubledBrace('{', s2, args, 0);
    }
    assert FIXED_TEMPLATE == HEAD + s1 by { TemplateNested("{{", "}}"); }
    LiteralText(HEAD, s1, args, 0);
    assert HEAD + ("{" + o2) == HEAD + "{" + SSID_KEY + ssid + PSK_KEY + password + CLOSE_QUOTE + "}" + TAIL by {
      OutputNested(ssid, password);
    }
  }

  lemma AppendAssoc(a: string, b: string, c: string)
    ensures a + (b + c) == a + b + c
  {
  }

  lemma TemplateNested(open: string, close: string)
    ensures Template(open, close)
         == HEAD + (open + (SSID_KEY + ("{}" + (PSK_KEY + ("{}" + (CLOSE_QUOTE + (close + TAIL)))))))
  {
    Nest9(HEAD, open, SSID_KEY, "{}", PSK_KEY, "{}", CLOSE_QUOTE, close, TAIL);
  }

  lemma OutputNested(ssid: string, password: string)
    ensures HEAD + ("{" + (SSID_KEY + ssid + (PSK_KEY + password + (CLOSE_QUOTE + "}" + TAIL))))
         == HEAD + "{" + SSID_KEY + ssid + PSK_KEY + password + CLOSE_QUOTE + "}" + TAIL
  {
    Nest9(HEAD, "{", SSID_KEY, ssid, PSK_KEY, password, CLOSE_QUOTE, "}", TAIL);
    AppendAssoc(SSID_KEY, ssid, PSK_KEY + password + (CLOSE_QUOTE + "}" + TAIL));
  }

  /** Concatenation regrouped, for any nine strings. */
  lemma Nest9(a: string, b: string, c: string, d: string, e: string, f: string, g: string, h: string, i: string)
    ensures a + b + c + d + e + f + g + h + i == a + (b + (c + (d + (e + (f + (g + (h + i)))))))
  {
  }
}
