/**
 The payloads of a message or a part, read off its header fields: what each media type, transfer
 encoding and charset does.
 */
module MimeLaws {
  import opened Basics
  import opened Bytes
  import opened Text
  import opened Mime
  import Base64
  import Runes
  import Utf8

  ghost function PayloadsOf(lib: Library, part: Part): seq<Body>
    requires Sound(lib)
  {
    Payloads(Leaves(PartTree(lib, part)))
  }

  ghost function PayloadsOfMessage(lib: Library, raw: Body): seq<Body>
    requires Sound(lib)
  {
    Payloads(Leaves(MessageTree(lib, raw)))
  }

  /** The payloads of several parts, one part after the other. */
  ghost function PayloadsOfAll(lib: Library, parts: seq<Part>): seq<Body>
    requires Sound(lib)
  {
    if parts == [] then [] else PayloadsOf(lib, parts[0]) + PayloadsOfAll(lib, parts[1..])
  }

  /** The Content-Type field says main/sub. */
  ghost predicate Says(lib: Library, ctype: string, main: string, sub: string, params: map<string, string>) {
    ctype != "" && '/' !in main && lib.parseMediaType(ctype) == Some(MediaType(main + "/" + sub, params))
  }

  lemma MediaTypeSplits(main: string, sub: string)
    requires '/' !in main
    ensures var name := main + "/" + sub; var slash := IndexOf(name, '/');
      slash < |name| && name[..slash] == main && name[slash + 1..] == sub
  {
    IndexOfFirst(main, sub, '/');
  }

  lemma {:induction false} LeafPayloads(t: Tree)
    requires t.Leaf?
    ensures Payloads(Leaves(t)) == [t.payload]
  {
  }

  // ---------------------------------------------------------------- messages

  /** What does not parse as a message is one payload as it is. */
  lemma UnreadableMessage(lib: Library, raw: Body)
    requires Sound(lib) && lib.readMessage(raw) == None
    ensures PayloadsOfMessage(lib, raw) == [raw]
  {
    LeafPayloads(MessageTree(lib, raw));
  }

  lemma ReadableMessage(lib: Library, raw: Body, m: Part)
    requires Sound(lib) && lib.readMessage(raw) == Some(m)
    ensures PayloadsOfMessage(lib, raw) == PayloadsOf(lib, m)
  {
  }

  // ---------------------------------------------------------------- media types

  lemma {:induction false} AllPayloads(lib: Library, parts: seq<Part>)
    requires Sound(lib)
    ensures Payloads(AllLeaves(PartTrees(lib, parts))) == PayloadsOfAll(lib, parts)
  {
    if parts != [] {
      FirstPart(lib, parts);
      AllPayloads(lib, parts[1..]);
    }
  }

  /** A multipart with a boundary: the payloads of its parts, in order. */
  lemma {:induction false} MultipartIsWalked(lib: Library, part: Part, sub: string, params: map<string, string>)
    requires Sound(lib) && Says(lib, part.ctype, "multipart", sub, params)
    requires "boundary" in params && params["boundary"] != ""
    ensures PayloadsOf(lib, part) == PayloadsOfAll(lib, lib.parts(part.body, params["boundary"]))
  {
    MediaTypeSplits("multipart", sub);
    AllPayloads(lib, lib.parts(part.body, params["boundary"]));
  }

  /** Without a boundary it is one payload as it is. */
  lemma UnboundedMultipartIsRaw(lib: Library, part: Part, sub: string, params: map<string, string>)
    requires Sound(lib) && Says(lib, part.ctype, "multipart", sub, params)
    requires "boundary" in params ==> params["boundary"] == ""
    ensures PayloadsOf(lib, part) == [part.body]
  {
    MediaTypeSplits("multipart", sub);
    LeafPayloads(PartTree(lib, part));
  }

  /** An embedded message is descended into. */
  lemma EmbeddedIsWalked(lib: Library, part: Part, params: map<string, string>)
    requires Sound(lib) && Says(lib, part.ctype, "message", "rfc822", params)
    ensures PayloadsOf(lib, part) == PayloadsOfMessage(lib, part.body)
  {
    MediaTypeSplits("message", "rfc822");
  }

  /** A text is decoded; HTML is stripped of its tags, and nothing else is. */
  lemma TextIsDecoded(lib: Library, part: Part, sub: string, params: map<string, string>)
    requires Sound(lib) && Says(lib, part.ctype, "text", sub, params)
    ensures var charset := if "charset" in params then params["charset"] else "";
      var text := DecodeCharset(lib, DecodeCte(lib, part.body, part.cte), charset);
      PayloadsOf(lib, part) == [if sub == "html" then lib.htmlText(text) else text]
  {
    MediaTypeSplits("text", sub);
    LeafPayloads(PartTree(lib, part));
  }

  /** Anything else is one payload as it is, still encoded. */
  lemma OtherIsRaw(lib: Library, part: Part, main: string, sub: string, params: map<string, string>)
    requires Sound(lib) && Says(lib, part.ctype, main, sub, params)
    requires main != "multipart" && main != "text" && !(main == "message" && sub == "rfc822")
    ensures PayloadsOf(lib, part) == [part.body]
  {
    MediaTypeSplits(main, sub);
    LeafPayloads(PartTree(lib, part));
  }

  lemma TextKind(sub: string, params: map<string, string>)
    ensures KindOfType(MediaType("text" + "/" + sub, params))
         == TextPart(sub == "html", if "charset" in params then params["charset"] else "")
  {
    MediaTypeSplits("text", sub);
  }

  lemma PlainText()
    ensures KindOfType(MediaType("text/plain", map[])) == TextPart(false, "")
  {
    TextKind("plain", map[]);
    assert "text" + "/" + "plain" == "text/plain";
    assert |"plain"| != |"html"|;
  }

  lemma DefaultKind(lib: Library, ctype: string)
    requires ctype == "" || lib.parseMediaType(ctype) == None
    ensures KindOf(lib, ctype) == TextPart(false, "")
  {
    PlainText();
  }

  lemma TextPayload(lib: Library, part: Part, html: bool, charset: string)
    requires Sound(lib) && KindOf(lib, part.ctype) == TextPart(html, charset)
    ensures PayloadsOf(lib, part) == [TextOf(lib, part.body, part.cte, html, charset)]
  {
    LeafPayloads(PartTree(lib, part));
  }

  /** A field that is absent, or that does not parse, stands for text/plain in ASCII. */
  lemma DefaultIsPlainAscii(lib: Library, part: Part)
    requires Sound(lib) && (part.ctype == "" || lib.parseMediaType(part.ctype) == None)
    ensures PayloadsOf(lib, part) == [DecodeCharset(lib, DecodeCte(lib, part.body, part.cte), "")]
  {
    DefaultKind(lib, part.ctype);
    TextPayload(lib, part, false, "");
  }

  /** A media type without a slash has no subtype. */
  lemma BareTypeHasNoSubtype(lib: Library, part: Part, name: string, params: map<string, string>)
    requires Sound(lib) && part.ctype != "" && '/' !in name
    requires lib.parseMediaType(part.ctype) == Some(MediaType(name, params))
    requires name != "multipart" && name != "text"
    ensures PayloadsOf(lib, part) == [part.body]
  {
    assert name[..|name|] == name;
    LeafPayloads(PartTree(lib, part));
  }

  /** So text alone is no HTML. */
  lemma BareTextIsDecoded(lib: Library, part: Part, params: map<string, string>)
    requires Sound(lib) && part.ctype != "" && lib.parseMediaType(part.ctype) == Some(MediaType("text", params))
    ensures var charset := if "charset" in params then params["charset"] else "";
      PayloadsOf(lib, part) == [DecodeCharset(lib, DecodeCte(lib, part.body, part.cte), charset)]
  {
    assert '/' !in "text";
    assert "text"[..4] == "text";
    LeafPayloads(PartTree(lib, part));
  }

  // ---------------------------------------------------------------- transfer encodings

  /** Case and blanks around the name do not count. */
  ghost predicate Names(lib: Library, field: string, name: string) {
    lib.lower(TrimSpace(field)) == name
  }

  /** base64, with any noise in it, yields the bytes it encodes. */
  lemma {:induction false} Base64IsDecoded(lib: Library, x: Body, gaps: seq<Body>, cte: string)
    requires Names(lib, cte, "base64")
    requires |gaps| == |Base64.Encode(x)| + 1 && forall k :: 0 <= k < |gaps| ==> Base64.IsNoise(gaps[k])
    ensures DecodeCte(lib, Base64.Spread(Base64.Encode(x), gaps), cte) == x
  {
    Base64.NoiseImmunity(x, gaps);
  }

  /** base64 that does not decode is left as it is. */
  lemma {:induction false} BrokenBase64IsRaw(lib: Library, body: Body, cte: string)
    requires Names(lib, cte, "base64") && !Base64.WellPadded(Filter(body, Base64.IsBase64Byte))
    ensures DecodeCte(lib, body, cte) == body
  {
    Base64.DecodesIffWellPadded(Filter(body, Base64.IsBase64Byte));
  }

  lemma QuotedPrintableIsDecoded(lib: Library, body: Body, cte: string)
    requires Names(lib, cte, "quoted-printable")
    ensures DecodeCte(lib, body, cte) == lib.quotedPrintable(body)
  {
    var name := "quoted-printable";
    assert |name| != |"base64"|;
  }

  lemma OtherEncodingIsNone(lib: Library, body: Body, cte: string)
    requires !Names(lib, cte, "base64") && !Names(lib, cte, "quoted-printable")
    ensures DecodeCte(lib, body, cte) == body
  {
  }

  // ---------------------------------------------------------------- charsets

  ghost predicate NamesAscii(lib: Library, charset: string) {
    || Names(lib, charset, "") || Names(lib, charset, "ascii")
    || Names(lib, charset, "us-ascii") || Names(lib, charset, "ansi_x3.4-1968")
  }

  ghost predicate NamesUtf8(lib: Library, charset: string) {
    Names(lib, charset, "utf-8") || Names(lib, charset, "utf8") || Names(lib, charset, "utf_8")
  }

  /** No charset, or ASCII by any of its names: the bytes from 0x80 on go, the others stay. */
  lemma {:induction false} AsciiIsFiltered(lib: Library, body: Body, charset: string)
    requires NamesAscii(lib, charset)
    ensures DecodeCharset(lib, body, charset) == Filter(body, b => b < 0x80)
  {
    FilterSame(body, Utf8.IsAscii, b => b < 0x80);
  }

  lemma {:induction false} FilterSame(s: Body, f: Byte -> bool, g: Byte -> bool)
    requires forall b :: f(b) == g(b)
    ensures Filter(s, f) == Filter(s, g)
  {
    if s != [] {
      FilterSame(s[1..], f, g);
    }
  }

  lemma NamesDiffer()
    ensures "utf-8" != "" && "utf-8" != "ascii" && "utf-8" != "us-ascii" && "utf-8" != "ansi_x3.4-1968"
    ensures "utf8" != "" && "utf8" != "ascii" && "utf8" != "us-ascii" && "utf8" != "ansi_x3.4-1968"
    ensures "utf_8" != "" && "utf_8" != "ascii" && "utf_8" != "us-ascii" && "utf_8" != "ansi_x3.4-1968"
  {
    assert "utf-8"[0] == 'u' && "utf_8"[0] == 'u' && "ascii"[0] == 'a';
  }

  /** UTF-8 by any of its names: what is no character goes. */
  lemma Utf8IsCleaned(lib: Library, body: Body, charset: string)
    requires NamesUtf8(lib, charset)
    ensures DecodeCharset(lib, body, charset) == Utf8.Cleaned(body)
  {
    NamesDiffer();
  }

  /** A charset that is not known, or does not decode: ASCII. */
  lemma {:induction false} UnknownCharsetIsAscii(lib: Library, body: Body, charset: string)
    requires !NamesAscii(lib, charset) && !NamesUtf8(lib, charset)
    requires lib.codec(lib.lower(TrimSpace(charset)), body) == None
    ensures DecodeCharset(lib, body, charset) == Filter(body, b => b < 0x80)
  {
    FilterSame(body, Utf8.IsAscii, b => b < 0x80);
  }

  /** A known one: what it decodes to, without the replacement characters. */
  lemma {:induction false} KnownCharsetIsDecoded(lib: Library, body: Body, charset: string, text: string)
    requires !NamesAscii(lib, charset) && !NamesUtf8(lib, charset)
    requires lib.codec(lib.lower(TrimSpace(charset)), body) == Some(Utf8.EncodeAll(text))
    ensures DecodeCharset(lib, body, charset) == Utf8.EncodeAll(Runes.Without(text, '\U{FFFD}'))
  {
    Utf8.DroppedIsRunewise(text);
  }
}
