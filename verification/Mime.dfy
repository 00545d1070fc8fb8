/**
 The walk over the MIME tree that finds a message's payloads: digestPayloads and walkPart call
 each other, through parsers that are not part of this model.
 */
module Mime {
  import opened Basics
  import opened Bytes
  import opened Text
  import Base64
  import Utf8

  type Body = seq<Byte>

  /** A message or a body part: two of its header fields, "" when absent, and its body. */
  datatype Part = Part(ctype: string, cte: string, body: Body)

  datatype MediaType = MediaType(name: string, params: map<string, string>)

  /** The library code the walk calls. */
  datatype Library = Library(
    readMessage: Body -> Option<Part>,
    parseMediaType: string -> Option<MediaType>,
    parts: (Body, string) -> seq<Part>,
    lower: string -> string,
    quotedPrintable: Body -> Body,
    codec: (string, Body) -> Option<Body>,
    htmlText: Body -> Body)

  /** Bytes of the parts' bodies, and one more for each part. */
  function Weight(parts: seq<Part>): nat {
    if parts == [] then 0 else |parts[0].body| + 1 + Weight(parts[1..])
  }

  /**
   What the parsers promise: a message's header takes at least one byte, and the parts of a
   multipart body are disjoint stretches of it, each introduced by a delimiter of its own.
   */
  ghost predicate Sound(lib: Library) {
    && (forall raw :: lib.readMessage(raw).Some? ==> |lib.readMessage(raw).value.body| < |raw|)
    && (forall body, boundary :: Weight(lib.parts(body, boundary)) <= |body|)
  }

  // ---------------------------------------------------------------- one part

  /** What walkPart takes a part for. */
  datatype Kind =
    | Multipart(boundary: string)
    | Unbounded               // multipart, but no boundary
    | Embedded                // message/rfc822
    | TextPart(html: bool, charset: string)
    | Opaque

  function Param(mt: MediaType, key: string): string {
    if key in mt.params then mt.params[key] else ""
  }

  function KindOf(lib: Library, ctype: string): Kind {
    match lib.parseMediaType(ctype)
    case Some(mt) => KindOfType(if ctype == "" then MediaType("text/plain", map[]) else mt)
    case None => KindOfType(MediaType("text/plain", map[]))
  }

  function KindOfType(mt: MediaType): Kind {
    var slash := IndexOf(mt.name, '/');
    var main := mt.name[..slash];
    var sub := if slash < |mt.name| then mt.name[slash + 1..] else "";
    if main == "multipart" then
      if Param(mt, "boundary") == "" then Unbounded else Multipart(Param(mt, "boundary"))
    else if main == "message" && sub == "rfc822" then Embedded
    else if main == "text" then TextPart(sub == "html", Param(mt, "charset"))
    else Opaque
  }

  function DecodeCte(lib: Library, body: Body, cte: string): Body {
    var encoding := lib.lower(TrimSpace(cte));
    if encoding == "base64" then Base64.Decoded(body)
    else if encoding == "quoted-printable" then lib.quotedPrintable(body)
    else body
  }

  function DecodeCharset(lib: Library, body: Body, charset: string): Body {
    var name := lib.lower(TrimSpace(charset));
    if name == "" || name == "ascii" || name == "us-ascii" || name == "ansi_x3.4-1968" then
      Filter(body, Utf8.IsAscii)
    else if name == "utf-8" || name == "utf8" || name == "utf_8" then
      Utf8.Cleaned(body)
    else match lib.codec(name, body)
      case Some(text) => Utf8.Dropped(text)
      case None => Filter(body, Utf8.IsAscii)
  }

  function TextOf(lib: Library, body: Body, cte: string, html: bool, charset: string): Body {
    var text := DecodeCharset(lib, DecodeCte(lib, body, cte), charset);
    if html then lib.htmlText(text) else text
  }

  lemma {:induction false} AsciiIsValid(body: Body)
    requires AllOf(body, Utf8.IsAscii)
    ensures Utf8.ValidUtf8(body)
  {
    if body == [] {
      assert Utf8.Join([]) == body;
    } else {
      AsciiIsValid(body[1..]);
      var cs :| Utf8.AllChars(cs) && Utf8.Join(cs) == body[1..];
      assert Utf8.IsUtf8Char(body[..1]);
      assert ([body[..1]] + cs)[1..] == cs;
      assert Utf8.Join([body[..1]] + cs) == body;
    }
  }

  /** Whatever the bytes and the charset named, a text is valid UTF-8, as long as the codecs yield that. */
  lemma TextIsValidUtf8(lib: Library, body: Body, charset: string)
    requires forall name, b :: lib.codec(name, b).Some? ==> Utf8.ValidUtf8(lib.codec(name, b).value)
    ensures Utf8.ValidUtf8(DecodeCharset(lib, body, charset))
  {
    FilterClears(body, Utf8.IsAscii);
    AsciiIsValid(Filter(body, Utf8.IsAscii));
    Utf8.CleanedIsValid(body);
    var decoded := lib.codec(lib.lower(TrimSpace(charset)), body);
    if decoded.Some? {
      Utf8.DroppedStaysValid(decoded.value);
    }
  }

  // ---------------------------------------------------------------- the part tree

  /** A leaf keeps the raw body it stands for beside the payload made of it. */
  datatype Tree = Leaf(raw: Body, payload: Body) | Branch(children: seq<Tree>)

  function MessageTree(lib: Library, raw: Body): Tree
    requires Sound(lib)
    decreases |raw|, 0
  {
    match lib.readMessage(raw)
    case None => Leaf(raw, raw)
    case Some(m) => PartTree(lib, m)
  }

  function PartTree(lib: Library, part: Part): Tree
    requires Sound(lib)
    decreases |part.body|, 1
  {
    match KindOf(lib, part.ctype)
    case Multipart(boundary) => Branch(PartTrees(lib, lib.parts(part.body, boundary)))
    case Embedded => MessageTree(lib, part.body)
    case TextPart(html, charset) => Leaf(part.body, TextOf(lib, part.body, part.cte, html, charset))
    case _ => Leaf(part.body, part.body)
  }

  function PartTrees(lib: Library, parts: seq<Part>): seq<Tree>
    requires Sound(lib)
    decreases Weight(parts), 0
  {
    if parts == [] then [] else [PartTree(lib, parts[0])] + PartTrees(lib, parts[1..])
  }

  /** The leaves from left to right. */
  function Leaves(t: Tree): seq<Tree> {
    match t
    case Leaf(_, _) => [t]
    case Branch(children) => AllLeaves(children)
  }

  function AllLeaves(ts: seq<Tree>): seq<Tree> {
    if ts == [] then [] else Leaves(ts[0]) + AllLeaves(ts[1..])
  }

  function Payloads(leaves: seq<Tree>): (payloads: seq<Body>)
    ensures |payloads| == |leaves|
  {
    seq(|leaves|, i requires 0 <= i < |leaves| => if leaves[i].Leaf? then leaves[i].payload else [])
  }

  // ---------------------------------------------------------------- the two functions of the walk

  method DigestPayloads(lib: Library, raw: Body) returns (out: seq<Body>)
    requires Sound(lib)
    ensures out == Payloads(Leaves(MessageTree(lib, raw)))
    decreases |raw|, 0
  {
    match lib.readMessage(raw) {
      case None => out := [raw];
      case Some(m) => out := WalkPart(lib, m);
    }
  }

  method WalkPart(lib: Library, part: Part) returns (out: seq<Body>)
    requires Sound(lib)
    ensures out == Payloads(Leaves(PartTree(lib, part)))
    decreases |part.body|, 1
  {
    match KindOf(lib, part.ctype) {
      case Unbounded =>
        out := [part.body];
      case Multipart(boundary) =>
        out := WalkParts(lib, part, boundary);
      case Embedded =>
        out := DigestPayloads(lib, part.body);
      case TextPart(html, charset) =>
        out := [TextOf(lib, part.body, part.cte, html, charset)];
      case Opaque =>
        out := [part.body];
    }
  }

  /** The loop over the parts of a multipart body. */
  method WalkParts(lib: Library, part: Part, boundary: string) returns (out: seq<Body>)
    requires Sound(lib)
    ensures out == Payloads(AllLeaves(PartTrees(lib, lib.parts(part.body, boundary))))
    decreases |part.body|, 0
  {
    var parts := lib.parts(part.body, boundary);
    ghost var all := Payloads(AllLeaves(PartTrees(lib, parts)));
    out := [];
    for i := 0 to |parts|
      invariant all == out + Payloads(AllLeaves(PartTrees(lib, parts[i..])))
      invariant Weight(parts[i..]) <= |part.body|
    {
      ghost var rest := parts[i..];
      assert rest[0] == parts[i] && rest[1..] == parts[i + 1..];
      var inner := WalkPart(lib, parts[i]);
      FirstPart(lib, rest);
      Assoc(out, inner, Payloads(AllLeaves(PartTrees(lib, rest[1..]))));
      out := out + inner;
    }
  }

  lemma {:induction false} FirstPart(lib: Library, parts: seq<Part>)
    requires Sound(lib) && parts != []
    ensures Payloads(AllLeaves(PartTrees(lib, parts)))
         == Payloads(Leaves(PartTree(lib, parts[0]))) + Payloads(AllLeaves(PartTrees(lib, parts[1..])))
  {
    var ts, rest := PartTrees(lib, parts), PartTrees(lib, parts[1..]);
    assert ts == [PartTree(lib, parts[0])] + rest && ts[1..] == rest;
    var a, b := Leaves(ts[0]), AllLeaves(rest);
    assert AllLeaves(ts) == a + b;
    PayloadsOfBoth(a, b);
  }

  lemma PayloadsOfBoth(a: seq<Tree>, b: seq<Tree>)
    ensures Payloads(a + b) == Payloads(a) + Payloads(b)
  {
  }

  // ---------------------------------------------------------------- document order

  /** The leaf found by taking, from the root, the child with each number of `path` in turn. */
  function LeafAt(t: Tree, path: seq<nat>): (leaf: Option<Tree>)
    ensures leaf.Some? ==> leaf.value.Leaf?
  {
    match t
    case Leaf(_, _) => if path == [] then Some(t) else None
    case Branch(children) => LeafIn(children, path)
  }

  function LeafIn(ts: seq<Tree>, path: seq<nat>): (leaf: Option<Tree>)
    ensures leaf.Some? ==> leaf.value.Leaf?
  {
    if path == [] || path[0] >= |ts| then None
    else LeafAt(ts[path[0]], path[1..])
  }

  /** Document order: the first differing child number decides. */
  predicate Before(p: seq<nat>, q: seq<nat>) {
    && p != [] && q != []
    && (p[0] < q[0] || (p[0] == q[0] && Before(p[1..], q[1..])))
  }

  /** Where the k-th leaf is. */
  function PathTo(t: Tree, k: nat): seq<nat>
    requires k < |Leaves(t)|
  {
    match t
    case Leaf(_, _) => []
    case Branch(children) => PathIn(children, k)
  }

  function PathIn(ts: seq<Tree>, k: nat): (path: seq<nat>)
    requires k < |AllLeaves(ts)|
    ensures path != []
  {
    var n := |Leaves(ts[0])|;
    if k < n then [0] + PathTo(ts[0], k)
    else Next(PathIn(ts[1..], k - n))
  }

  function Next(path: seq<nat>): seq<nat>
    requires path != []
  {
    [path[0] + 1] + path[1..]
  }

  lemma {:induction false} LeafAtPath(t: Tree, k: nat)
    requires k < |Leaves(t)|
    ensures LeafAt(t, PathTo(t, k)) == Some(Leaves(t)[k])
  {
    if t.Branch? {
      LeafInPath(t.children, k);
    }
  }

  lemma {:induction false} LeafInPath(ts: seq<Tree>, k: nat)
    requires k < |AllLeaves(ts)|
    ensures LeafIn(ts, PathIn(ts, k)) == Some(AllLeaves(ts)[k])
  {
    var n := |Leaves(ts[0])|;
    if k < n {
      LeafAtPath(ts[0], k);
      assert PathIn(ts, k)[1..] == PathTo(ts[0], k);
    } else {
      LeafInPath(ts[1..], k - n);
      var p := PathIn(ts[1..], k - n);
      assert PathIn(ts, k)[1..] == p[1..];
    }
  }

  lemma {:induction false} PathsAscend(t: Tree, j: nat, k: nat)
    requires j < k < |Leaves(t)|
    ensures Before(PathTo(t, j), PathTo(t, k))
  {
    if t.Branch? {
      PathsInAscend(t.children, j, k);
    }
  }

  lemma {:induction false} PathsInAscend(ts: seq<Tree>, j: nat, k: nat)
    requires j < k < |AllLeaves(ts)|
    ensures Before(PathIn(ts, j), PathIn(ts, k))
  {
    var n := |Leaves(ts[0])|;
    if k < n {
      PathsAscend(ts[0], j, k);
      assert PathIn(ts, j)[1..] == PathTo(ts[0], j);
      assert PathIn(ts, k)[1..] == PathTo(ts[0], k);
    } else if j >= n {
      PathsInAscend(ts[1..], j - n, k - n);
      assert PathIn(ts, j)[1..] == PathIn(ts[1..], j - n)[1..];
      assert PathIn(ts, k)[1..] == PathIn(ts[1..], k - n)[1..];
    }
  }

  lemma {:induction false} EveryLeafHasIndex(t: Tree, path: seq<nat>) returns (k: nat)
    requires LeafAt(t, path).Some?
    ensures k < |Leaves(t)| && PathTo(t, k) == path
  {
    match t
    case Leaf(_, _) => k := 0;
    case Branch(children) => k := EveryLeafInHasIndex(children, path);
  }

  lemma {:induction false} EveryLeafInHasIndex(ts: seq<Tree>, path: seq<nat>) returns (k: nat)
    requires LeafIn(ts, path).Some?
    ensures k < |AllLeaves(ts)| && PathIn(ts, k) == path
  {
    if path[0] == 0 {
      k := EveryLeafHasIndex(ts[0], path[1..]);
      assert path == [0] + path[1..];
    } else {
      var up := [path[0] - 1] + path[1..];
      assert up[1..] == path[1..] && ts[1..][up[0]] == ts[path[0]];
      var j := EveryLeafInHasIndex(ts[1..], up);
      k := j + |Leaves(ts[0])|;
      assert Next(up) == path;
    }
  }

  /**
   Each leaf of the part tree is reached by exactly one index, its payload stands at that index,
   and the indices follow document order: one payload for each leaf, none lost, none repeated.
   */
  lemma {:induction false} PayloadsInDocumentOrder(lib: Library, raw: Body)
    requires Sound(lib)
    ensures var t := MessageTree(lib, raw);
      var out := Payloads(Leaves(t));
      && |out| == |Leaves(t)|
      && (forall k :: 0 <= k < |out| ==>
            LeafAt(t, PathTo(t, k)).Some? && out[k] == LeafAt(t, PathTo(t, k)).value.payload)
      && (forall j, k :: 0 <= j < k < |out| ==> Before(PathTo(t, j), PathTo(t, k)))
      && (forall path :: LeafAt(t, path).Some? ==> exists k :: 0 <= k < |out| && PathTo(t, k) == path)
  {
    var t := MessageTree(lib, raw);
    var out := Payloads(Leaves(t));
    forall k | 0 <= k < |out|
      ensures LeafAt(t, PathTo(t, k)).Some? && out[k] == LeafAt(t, PathTo(t, k)).value.payload
    {
      LeafAtPath(t, k);
    }
    forall j, k | 0 <= j < k < |out| ensures Before(PathTo(t, j), PathTo(t, k)) {
      PathsAscend(t, j, k);
    }
    forall path | LeafAt(t, path).Some? ensures exists k :: 0 <= k < |out| && PathTo(t, k) == path {
      var k := EveryLeafHasIndex(t, path);
    }
  }

  // ---------------------------------------------------------------- how much a message can hold

  /** Raw bytes held by the leaves, and one more for each leaf. */
  function Load(leaves: seq<Tree>): nat {
    if leaves == [] then 0 else (if leaves[0].Leaf? then |leaves[0].raw| else 0) + 1 + Load(leaves[1..])
  }

  lemma {:induction false} LoadAppend(a: seq<Tree>, b: seq<Tree>)
    ensures Load(a + b) == Load(a) + Load(b)
  {
    if a == [] {
      assert a + b == b;
    } else {
      assert (a + b)[1..] == a[1..] + b;
      LoadAppend(a[1..], b);
    }
  }

  lemma {:induction false} LoadCounts(leaves: seq<Tree>)
    ensures |leaves| <= Load(leaves)
  {
    if leaves != [] {
      LoadCounts(leaves[1..]);
    }
  }

  /**
   However the parts nest, the leaves share out the bytes of the message: their raw bodies and
   their number together never exceed |raw| + 1.
   */
  lemma {:induction false} MessageLoad(lib: Library, raw: Body)
    requires Sound(lib)
    ensures Load(Leaves(MessageTree(lib, raw))) <= |raw| + 1
    ensures |Leaves(MessageTree(lib, raw))| <= |raw| + 1
    decreases |raw|, 0
  {
    match lib.readMessage(raw)
    case None => LoadOfLeaf(MessageTree(lib, raw));
    case Some(m) => PartLoad(lib, m);
    LoadCounts(Leaves(MessageTree(lib, raw)));
  }

  lemma {:induction false} LoadOfLeaf(t: Tree)
    requires t.Leaf?
    ensures Load(Leaves(t)) == |t.raw| + 1
  {
    assert [t][1..] == [];
  }

  lemma {:induction false} PartLoad(lib: Library, part: Part)
    requires Sound(lib)
    ensures Load(Leaves(PartTree(lib, part))) <= |part.body| + 1
    decreases |part.body|, 1
  {
    match KindOf(lib, part.ctype)
    case Multipart(boundary) => PartsLoad(lib, lib.parts(part.body, boundary));
    case Embedded => MessageLoad(lib, part.body);
    case _ => LoadOfLeaf(PartTree(lib, part));
  }

  lemma {:induction false} PartsLoad(lib: Library, parts: seq<Part>)
    requires Sound(lib)
    ensures Load(AllLeaves(PartTrees(lib, parts))) <= Weight(parts)
    decreases Weight(parts), 0
  {
    if parts != [] {
      PartLoad(lib, parts[0]);
      PartsLoad(lib, parts[1..]);
      var ts := PartTrees(lib, parts);
      assert ts[1..] == PartTrees(lib, parts[1..]);
      LoadAppend(Leaves(ts[0]), AllLeaves(ts[1..]));
    }
  }
}
