/** The Forms Data Format encoder: literal-string escaping (section 7.3.4.2 of
    ISO 32000-1) and the fixed FDF document around one `/T`/`/V` dictionary per
    field (section 12.7.8 of ISO 32000-1). A reader for exactly that layout is
    defined alongside, and the round-trip lemmas are stated against it. */
module Fdf {
  import opened Wrappers

  /** The three characters a PDF literal string must escape. */
  predicate IsSpecial(c: char) {
    c == '\\' || c == '(' || c == ')'
  }

  // ---------------------------------------------------------------------------
  // Escaping

  /** `String.prototype.replaceAll` with a one-character pattern. */
  function ReplaceAll(s: string, c: char, with: string): (r: string)
    ensures forall x :: x in r ==> (x in s && x != c) || x in with
    ensures c !in with ==> c !in r
  {
    if s == [] then []
    else (if s[0] == c then with else [s[0]]) + ReplaceAll(s[1..], c, with)
  }

  lemma {:induction false} ReplaceAllAppend(a: string, b: string, c: char, with: string)
    ensures ReplaceAll(a + b, c, with) == ReplaceAll(a, c, with) + ReplaceAll(b, c, with)
    decreases |a|
  {
    if a == [] {
      assert a + b == b;
    } else {
      assert (a + b)[0] == a[0];
      assert (a + b)[1..] == a[1..] + b;
      ReplaceAllAppend(a[1..], b, c, with);
    }
  }

  /** The escape sequence of one character. */
  function EscapeChar(c: char): string {
    if IsSpecial(c) then ['\\', c] else [c]
  }

  /** Per-character escaping: the reference the three passes are checked against. */
  function Escape(s: string): (r: string)
    ensures |r| == |s| + SpecialCount(s)
  {
    if s == [] then [] else EscapeChar(s[0]) + Escape(s[1..])
  }

  /** Number of backslashes and parentheses in `s`. */
  function SpecialCount(s: string): nat {
    if s == [] then 0 else (if IsSpecial(s[0]) then 1 else 0) + SpecialCount(s[1..])
  }

  lemma {:induction false} EscapeAppend(a: string, b: string)
    ensures Escape(a + b) == Escape(a) + Escape(b)
    decreases |a|
  {
    if a == [] {
      assert a + b == b;
    } else {
      assert (a + b)[0] == a[0];
      assert (a + b)[1..] == a[1..] + b;
      EscapeAppend(a[1..], b);
    }
  }

  /** The three `replaceAll` passes, backslashes first. Run in this order
      they escape each character on its own: the backslashes the later
      passes insert are never doubled. */
  function ThreePasses(s: string): (r: string)
    ensures r == Escape(s)
  {
    ThreePassesEscape(s);
    ReplaceAll(ReplaceAll(ReplaceAll(s, '\\', "\\\\"), '(', "\\("), ')', "\\)")
  }

  /** The passes of `ThreePasses` equal per-character escaping on every string. */
  lemma {:induction false} ThreePassesEscape(s: string)
    ensures ReplaceAll(ReplaceAll(ReplaceAll(s, '\\', "\\\\"), '(', "\\("), ')', "\\)") == Escape(s)
    decreases |s|
  {
    if s != [] {
      var h, t := s[..1], s[1..];
      assert s == h + t;
      ReplaceAllAppend(h, t, '\\', "\\\\");
      var p1h, p1t := ReplaceAll(h, '\\', "\\\\"), ReplaceAll(t, '\\', "\\\\");
      ReplaceAllAppend(p1h, p1t, '(', "\\(");
      var p2h, p2t := ReplaceAll(p1h, '(', "\\("), ReplaceAll(p1t, '(', "\\(");
      ReplaceAllAppend(p2h, p2t, ')', "\\)");
      ThreePassesEscape(t);
      assert ReplaceAll(p2h, ')', "\\)") == EscapeChar(s[0]);
    }
  }

  /** `escapeString`: `null` and `undefined` become the empty string, and a
      present value is escaped character by character. */
  function EscapeString(value: Option<string>): (r: string)
    ensures value.None? ==> r == ""
    ensures value.Some? ==> r == Escape(value.value)
  {
    match value
    case None => ""
    case Some(s) => ThreePasses(s)
  }

  /** Reverses escaping, scanning left to right. */
  function Unescape(t: string): string {
    if |t| >= 2 && t[0] == '\\' && IsSpecial(t[1]) then [t[1]] + Unescape(t[2..])
    else if t == [] then []
    else [t[0]] + Unescape(t[1..])
  }

  /** Un-escaping recovers the escaped string. */
  lemma {:induction false} UnescapeEscape(s: string)
    ensures Unescape(Escape(s)) == s
    decreases |s|
  {
    if s != [] {
      var t := Escape(s);
      UnescapeEscape(s[1..]);
      if IsSpecial(s[0]) {
        assert t[2..] == Escape(s[1..]);
      } else {
        assert t[1..] == Escape(s[1..]);
      }
      assert s == [s[0]] + s[1..];
    }
  }

  /** Different strings have different escapes. */
  lemma EscapeInjective(a: string, b: string)
    ensures Escape(a) == Escape(b) ==> a == b
  {
    UnescapeEscape(a);
    UnescapeEscape(b);
  }

  /** `s` with its backslashes and parentheses removed. */
  function Ordinary(s: string): string {
    if s == [] then [] else (if IsSpecial(s[0]) then [] else [s[0]]) + Ordinary(s[1..])
  }

  lemma {:induction false} OrdinaryAppend(a: string, b: string)
    ensures Ordinary(a + b) == Ordinary(a) + Ordinary(b)
    decreases |a|
  {
    if a == [] {
      assert a + b == b;
    } else {
      assert (a + b)[0] == a[0];
      assert (a + b)[1..] == a[1..] + b;
      OrdinaryAppend(a[1..], b);
    }
  }

  /** Every character other than a backslash or parenthesis is copied, unchanged
      and in order. */
  lemma {:induction false} EscapeKeepsOrdinary(s: string)
    ensures Ordinary(Escape(s)) == Ordinary(s)
    decreases |s|
  {
    if s != [] {
      EscapeKeepsOrdinary(s[1..]);
      OrdinaryAppend(EscapeChar(s[0]), Escape(s[1..]));
      if IsSpecial(s[0]) {
        assert Ordinary(EscapeChar(s[0])) == [];
      } else {
        assert Ordinary(EscapeChar(s[0])) == [s[0]];
      }
    }
  }

  /** Length of the run of backslashes that ends just before index `i`. */
  function BackslashesBefore(t: string, i: nat): (n: nat)
    requires i <= |t|
    ensures n <= i
  {
    if i == 0 || t[i - 1] != '\\' then 0 else 1 + BackslashesBefore(t, i - 1)
  }

  /** Every parenthesis in `t` is escaped: an odd number of backslashes
      precedes it, so it cannot end a literal string. */
  predicate ParensEscaped(t: string) {
    forall i :: 0 <= i < |t| && (t[i] == '(' || t[i] == ')') ==> BackslashesBefore(t, i) % 2 == 1
  }

  lemma {:induction false} BackslashesBeforeAppend(t: string, u: string, i: nat)
    requires i <= |t|
    ensures BackslashesBefore(t + u, i) == BackslashesBefore(t, i)
    decreases i
  {
    if i > 0 {
      assert (t + u)[i - 1] == t[i - 1];
      BackslashesBeforeAppend(t, u, i - 1);
    }
  }

  lemma EscapeSnoc(init: string, c: char)
    ensures Escape(init + [c]) == Escape(init) + EscapeChar(c)
  {
    EscapeAppend(init, [c]);
    assert [c][1..] == [];
  }

  /** Appending one escaped character keeps the trailing run of backslashes
      even. */
  lemma EscapeCharKeepsRun(t: string, c: char)
    requires BackslashesBefore(t, |t|) % 2 == 0
    ensures BackslashesBefore(t + EscapeChar(c), |t + EscapeChar(c)|) % 2 == 0
  {
    var u := EscapeChar(c);
    var tu := t + u;
    BackslashesBeforeAppend(t, u, |t|);
    if IsSpecial(c) {
      assert tu[|t|] == '\\';
      assert BackslashesBefore(tu, |t| + 1) == 1 + BackslashesBefore(t, |t|);
      if c == '\\' {
        assert BackslashesBefore(tu, |t| + 2) == 2 + BackslashesBefore(t, |t|);
      } else {
        assert BackslashesBefore(tu, |t| + 2) == 0;
      }
    } else {
      assert BackslashesBefore(tu, |t| + 1) == 0;
    }
  }

  /** Appending one escaped character, after an even run of backslashes,
      keeps every parenthesis escaped. */
  lemma EscapeCharKeepsParens(t: string, c: char)
    requires ParensEscaped(t) && BackslashesBefore(t, |t|) % 2 == 0
    ensures ParensEscaped(t + EscapeChar(c))
  {
    var tu := t + EscapeChar(c);
    forall i | 0 <= i < |tu| && (tu[i] == '(' || tu[i] == ')')
      ensures BackslashesBefore(tu, i) % 2 == 1
    {
      ParenAfterAppend(t, c, i);
    }
  }

  lemma ParenAfterAppend(t: string, c: char, i: nat)
    requires ParensEscaped(t) && BackslashesBefore(t, |t|) % 2 == 0
    requires i < |t + EscapeChar(c)|
    requires (t + EscapeChar(c))[i] == '(' || (t + EscapeChar(c))[i] == ')'
    ensures BackslashesBefore(t + EscapeChar(c), i) % 2 == 1
  {
    var u := EscapeChar(c);
    var tu := t + u;
    if i < |t| {
      assert tu[i] == t[i];
      BackslashesBeforeAppend(t, u, i);
    } else {
      BackslashesBeforeAppend(t, u, |t|);
      assert IsSpecial(c) && i == |t| + 1 && tu[|t|] == '\\';
      assert BackslashesBefore(tu, |t| + 1) == 1 + BackslashesBefore(t, |t|);
    }
  }

  /** No parenthesis of a field name or value survives unescaped, and the
      escaped text ends in an even run of backslashes, so the `)` that closes
      the literal after it really closes it. */
  lemma {:induction false} EscapeLeavesNoBareParen(s: string)
    ensures ParensEscaped(Escape(s))
    ensures BackslashesBefore(Escape(s), |Escape(s)|) % 2 == 0
    decreases |s|
  {
    if s != [] {
      var init, c := s[..|s| - 1], s[|s| - 1];
      assert s == init + [c];
      EscapeLeavesNoBareParen(init);
      EscapeSnoc(init, c);
      EscapeCharKeepsRun(Escape(init), c);
      EscapeCharKeepsParens(Escape(init), c);
    }
  }

  // ---------------------------------------------------------------------------
  // The document

  /** Four characters with codes above 127 after the header line, marking the
      file as binary in the manner of section 7.5.2 of ISO 32000-1. */
  const BinaryMarker: string := [226 as char, 227 as char, 207 as char, 211 as char]

  /** The version line, the binary marker, and the opening of object 1's
      `/FDF` dictionary and its `/Fields` array. */
  const Header: string :=
    "%FDF-1.2\n" + BinaryMarker + "\n1 0 obj \n<<\n" + "/FDF \n<<\n/Fields [\n"

  /** Closes the array and both dictionaries, ends object 1, and names it as
      the root in the trailer. */
  const Footer: string :=
    "]\n>>\n>>\nendobj \n" + "trailer\n\n<<\n/Root 1 0 R\n" + ">>\n%%EOF\n"

  const OpenName: string := "<<\n/T ("
  const OpenValue: string := "\n/V ("
  const CloseBlock: string := "\n>>\n"

  /** One key of the caller's record: its name and its value, where `None`
      stands for `null` or `undefined`. */
  datatype Entry = Entry(name: string, value: Option<string>)

  /** The field dictionary of one entry. */
  function Block(e: Entry): string {
    FieldDictionary(EscapeString(Some(e.name)), EscapeString(e.value))
  }

  /** The `/T`/`/V` dictionary around an already escaped name and value. */
  function FieldDictionary(name: string, value: string): string {
    "<<\n/T (" + name + ")\n/V (" + value + ")\n>>\n"
  }

  /** `FieldDictionary` cut where a reader of it stops to decode a literal string. */
  lemma FieldDictionaryShape(name: string, value: string, more: string)
    ensures FieldDictionary(name, value) + more
         == OpenName + (name + ")" + (OpenValue + (value + ")" + (CloseBlock + more))))
  {
    var t1 := OpenValue + (value + ")" + (CloseBlock + more));
    assert "<<\n/T (" + name + ")\n/V (" + value + ")\n>>\n" + more
        == OpenName + (name + ")" + t1);
  }

  /** The field dictionaries of all entries, in order, with nothing between them. */
  function Body(es: seq<Entry>): string {
    if es == [] then [] else Block(es[0]) + Body(es[1..])
  }

  /** `createFdf`: the header, the fields, the footer. */
  function CreateFdf(es: seq<Entry>): (doc: string)
    ensures |doc| >= |Header| + |Footer|
    ensures doc[..|Header|] == Header
    ensures doc[|doc| - |Footer|..] == Footer
    ensures es == [] ==> doc == Header + Footer
    ensures DecodeFdf(doc) == Some(Pairs(es))
  {
    Framed(Header, Body(es), Footer);
    EmptyDocument(es);
    DecodeCreate(es);
    Header + (Body(es) + Footer)
  }

  lemma EmptyDocument(es: seq<Entry>)
    ensures es == [] ==> Header + (Body(es) + Footer) == Header + Footer
  {
    if es == [] {
      assert Body(es) + Footer == Footer;
    }
  }

  /** `h` and `f` frame `h + (m + f)`, whatever the middle. */
  lemma Framed(h: string, m: string, f: string)
    ensures |h + (m + f)| >= |h| + |f|
    ensures (h + (m + f))[..|h|] == h
    ensures (h + (m + f))[|h + (m + f)| - |f|..] == f
  {
    var d := h + (m + f);
    assert d[|d| - |f|..] == (m + f)[|m + f| - |f|..] == f;
  }

  /** The name/value pairs a reader should see: absent values read as empty. */
  function Pairs(es: seq<Entry>): seq<(string, string)> {
    if es == [] then []
    else [(es[0].name, match es[0].value case None => "" case Some(v) => v)] + Pairs(es[1..])
  }

  // ---------------------------------------------------------------------------
  // Reading the document back

  predicate HasPrefix(t: string, p: string) {
    |p| <= |t| && t[..|p|] == p
  }

  /** Reads a literal string whose opening `(` has been consumed: the decoded
      text and what follows the closing `)`. An unescaped `(` or a backslash
      before anything but `\`, `(` or `)` is rejected. Every other character,
      carriage return included, is kept as it is; a reader following section
      7.3.4.2 of ISO 32000-1 would read an unescaped carriage return as a
      line feed. */
  function ReadLiteral(t: string): (r: Option<(string, string)>)
    ensures r.Some? ==> |r.value.1| < |t|
  {
    if t == [] then None
    else if t[0] == ')' then Some(([], t[1..]))
    else if t[0] == '(' then None
    else if t[0] == '\\' then
      if |t| >= 2 && IsSpecial(t[1]) then
        match ReadLiteral(t[2..])
        case None => None
        case Some((v, rest)) => Some(([t[1]] + v, rest))
      else None
    else
      match ReadLiteral(t[1..])
      case None => None
      case Some((v, rest)) => Some(([t[0]] + v, rest))
  }

  /** A field value cannot end its literal early: reading an escaped string
      with the literal reader defined here stops exactly at the `)` written
      after it. */
  lemma {:induction false} ReadEscaped(s: string, rest: string)
    ensures ReadLiteral(Escape(s) + ")" + rest) == Some((s, rest))
    decreases |s|
  {
    var t := Escape(s) + ")" + rest;
    if s == [] {
      assert t == [')'] + rest;
    } else {
      ReadEscaped(s[1..], rest);
      var u := Escape(s[1..]) + ")" + rest;
      assert t == EscapeChar(s[0]) + u;
      ReadEscapedChar(s[0], u, s[1..], rest);
      assert s == [s[0]] + s[1..];
    }
  }

  /** One escaped character in front of a literal's text is read back as
      that character. */
  lemma ReadEscapedChar(c: char, u: string, v: string, rest: string)
    requires ReadLiteral(u) == Some((v, rest))
    ensures ReadLiteral(EscapeChar(c) + u) == Some(([c] + v, rest))
  {
    var t := EscapeChar(c) + u;
    if IsSpecial(c) {
      assert t[0] == '\\' && t[1] == c && t[2..] == u;
    } else {
      assert t[0] == c && t[1..] == u;
    }
  }

  /** Reads field dictionaries up to the footer. */
  function ParseBlocks(t: string): Option<seq<(string, string)>>
    decreases |t|
  {
    if HasPrefix(t, OpenName) then
      match ReadLiteral(t[|OpenName|..])
      case None => None
      case Some((name, t1)) =>
        if !HasPrefix(t1, OpenValue) then None
        else
          match ReadLiteral(t1[|OpenValue|..])
          case None => None
          case Some((value, t2)) =>
            if !HasPrefix(t2, CloseBlock) then None
            else
              match ParseBlocks(t2[|CloseBlock|..])
              case None => None
              case Some(more) => Some([(name, value)] + more)
    else if t == Footer then Some([])
    else None
  }

  /** Reads a whole document: the header, the fields, the footer. */
  function DecodeFdf(doc: string): Option<seq<(string, string)>> {
    if HasPrefix(doc, Header) then ParseBlocks(doc[|Header|..]) else None
  }

  /** Reading one field dictionary back gives its name and value and leaves
      the text after it. */
  lemma ParseBlock(e: Entry, more: string)
    ensures ParseBlocks(Block(e) + more)
         == match ParseBlocks(more)
            case None => None
            case Some(m) => Some([Pairs([e])[0]] + m)
  {
    var n, v := e.name, match e.value case None => "" case Some(x) => x;
    var t2 := CloseBlock + more;
    var t1 := OpenValue + (Escape(v) + ")" + t2);
    var t := OpenName + (Escape(n) + ")" + t1);
    assert EscapeString(e.value) == Escape(v);
    FieldDictionaryShape(Escape(n), Escape(v), more);
    assert t[|OpenName|..] == Escape(n) + ")" + t1;
    ReadEscaped(n, t1);
    assert t1[|OpenValue|..] == Escape(v) + ")" + t2;
    ReadEscaped(v, t2);
    assert t2[|CloseBlock|..] == more;
  }

  lemma {:induction false} ParseBody(es: seq<Entry>)
    ensures ParseBlocks(Body(es) + Footer) == Some(Pairs(es))
    decreases |es|
  {
    if es == [] {
      assert Body(es) + Footer == Footer;
      assert Footer[0] == ']';
      assert !HasPrefix(Footer, OpenName);
    } else {
      ParseBody(es[1..]);
      assert Body(es) + Footer == Block(es[0]) + (Body(es[1..]) + Footer);
      ParseBlock(es[0], Body(es[1..]) + Footer);
      assert [es[0]][1..] == [];
    }
  }

  /** Reading back what `createFdf` wrote with the reader defined here gives
      every name and value, in order, exactly as given, with absent values as
      empty strings. */
  lemma DecodeCreate(es: seq<Entry>)
    ensures DecodeFdf(Header + (Body(es) + Footer)) == Some(Pairs(es))
  {
    var rest := Body(es) + Footer;
    assert (Header + rest)[|Header|..] == rest;
    ParseBody(es);
  }

  // ---------------------------------------------------------------------------
  // Worked examples

  /** Backslashes are doubled before parentheses are escaped, so `a\(b)`
      becomes `a\\\(b\)`. */
  lemma EscapeBackslashParen()
    ensures Escape("a\\(b)") == "a\\\\\\(b\\)"
  {
  }

  /** A `null` or `undefined` value yields an empty `/V` string. */
  lemma NullValueBlock(name: string)
    ensures Block(Entry(name, None)) == "<<\n/T (" + Escape(name) + ")\n/V ()\n>>\n"
  {
  }

  /** A string without backslashes or parentheses is its own escape. */
  lemma {:induction false} EscapePlain(s: string)
    requires forall i :: 0 <= i < |s| ==> !IsSpecial(s[i])
    ensures Escape(s) == s
    decreases |s|
  {
    if s != [] {
      EscapePlain(s[1..]);
      assert s == [s[0]] + s[1..];
    }
  }
}
