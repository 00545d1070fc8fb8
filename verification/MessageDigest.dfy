/**
 The digest of a whole message: the payloads that the MIME walk finds, read as text, go through
 line selection and sampling. The runes of a payload are what a `range` loop visits when it is
 valid UTF-8.
 */
module MessageDigest {
  import opened Mime
  import Base64
  import Digest
  import Text
  import Utf8

  /** The payloads as texts. */
  function Texts(payloads: seq<Body>): (texts: seq<string>)
    ensures |texts| == |payloads|
  {
    seq(|payloads|, i requires 0 <= i < |payloads| => Utf8.DecodeIgnore(payloads[i]))
  }

  ghost predicate AllValid(payloads: seq<Body>) {
    forall i :: 0 <= i < |payloads| ==> Utf8.ValidUtf8(payloads[i])
  }

  /** Reading valid payloads as text loses nothing. */
  lemma TextsLoseNothing(payloads: seq<Body>, i: nat)
    requires AllValid(payloads) && i < |payloads|
    ensures Utf8.EncodeAll(Texts(payloads)[i]) == payloads[i]
  {
    Utf8.CleanedIsValid(payloads[i]);
  }

  ghost function PayloadsOf(lib: Library, raw: Body): seq<Body>
    requires Sound(lib)
  {
    Payloads(Leaves(MessageTree(lib, raw)))
  }

  /** Compute, on a message whose payloads are valid UTF-8. */
  method Compute(lib: Library, raw: Body, sha1: string -> string) returns (digest: string)
    requires Sound(lib) && AllValid(PayloadsOf(lib, raw))
    ensures digest == sha1(Digest.HashedText(Texts(PayloadsOf(lib, raw))))
  {
    var payloads := DigestPayloads(lib, raw);
    digest := Digest.Compute(Texts(payloads), sha1);
  }

  // ---------------------------------------------------------------- messages that differ in base64 noise

  /** An encoding of `x` with bytes outside the alphabet anywhere around and between its letters. */
  ghost predicate Encodes(body: Body, x: Body) {
    exists gaps :: IsSpread(body, x, gaps)
  }

  ghost predicate IsSpread(body: Body, x: Body, gaps: seq<Body>) {
    && |gaps| == |Base64.Encode(x)| + 1
    && (forall k :: 0 <= k < |gaps| ==> Base64.IsNoise(gaps[k]))
    && body == Base64.Spread(Base64.Encode(x), gaps)
  }

  predicate IsBase64(lib: Library, cte: string) {
    lib.lower(Text.TrimSpace(cte)) == "base64"
  }

  /** The same part, save for the noise in base64 texts, at any depth. */
  ghost predicate Alike(lib: Library, p: Part, q: Part)
    requires Sound(lib)
    decreases |p.body|, 1
  {
    && p.ctype == q.ctype
    && match KindOf(lib, p.ctype)
       case Multipart(boundary) => AllAlike(lib, lib.parts(p.body, boundary), lib.parts(q.body, boundary))
       case Embedded => MessagesAlike(lib, p.body, q.body)
       case TextPart(_, _) =>
         && p.cte == q.cte
         && (p.body == q.body || (IsBase64(lib, p.cte) && exists x :: Encodes(p.body, x) && Encodes(q.body, x)))
       case _ => p.body == q.body
  }

  ghost predicate AllAlike(lib: Library, ps: seq<Part>, qs: seq<Part>)
    requires Sound(lib)
    decreases Weight(ps), 0
  {
    && |ps| == |qs|
    && (ps != [] ==> Alike(lib, ps[0], qs[0]) && AllAlike(lib, ps[1..], qs[1..]))
  }

  ghost predicate MessagesAlike(lib: Library, a: Body, b: Body)
    requires Sound(lib)
    decreases |a|, 0
  {
    match lib.readMessage(a)
    case None => a == b
    case Some(m) => lib.readMessage(b).Some? && Alike(lib, m, lib.readMessage(b).value)
  }

  lemma NoiseDecodes(body: Body, x: Body)
    requires Encodes(body, x)
    ensures Base64.Decoded(body) == x
  {
    var gaps :| IsSpread(body, x, gaps);
    Base64.NoiseImmunity(x, gaps);
  }

  lemma {:induction false} AlikePayloads(lib: Library, p: Part, q: Part)
    requires Sound(lib) && Alike(lib, p, q)
    ensures Payloads(Leaves(PartTree(lib, p))) == Payloads(Leaves(PartTree(lib, q)))
    decreases |p.body|, 1
  {
    match KindOf(lib, p.ctype)
    case Multipart(boundary) => AllAlikePayloads(lib, lib.parts(p.body, boundary), lib.parts(q.body, boundary));
    case Embedded => MessagesAlikePayloads(lib, p.body, q.body);
    case TextPart(html, charset) =>
      if p.body != q.body {
        var x :| Encodes(p.body, x) && Encodes(q.body, x);
        NoiseDecodes(p.body, x);
        NoiseDecodes(q.body, x);
      }
      LeafPayload(PartTree(lib, p));
      LeafPayload(PartTree(lib, q));
    case _ =>
      LeafPayload(PartTree(lib, p));
      LeafPayload(PartTree(lib, q));
  }

  lemma {:induction false} LeafPayload(t: Tree)
    requires t.Leaf?
    ensures Payloads(Leaves(t)) == [t.payload]
  {
  }

  lemma {:induction false} AllAlikePayloads(lib: Library, ps: seq<Part>, qs: seq<Part>)
    requires Sound(lib) && AllAlike(lib, ps, qs)
    ensures Payloads(AllLeaves(PartTrees(lib, ps))) == Payloads(AllLeaves(PartTrees(lib, qs)))
    decreases Weight(ps), 0
  {
    if ps != [] {
      AlikePayloads(lib, ps[0], qs[0]);
      AllAlikePayloads(lib, ps[1..], qs[1..]);
      FirstPart(lib, ps);
      FirstPart(lib, qs);
    }
  }

  lemma {:induction false} MessagesAlikePayloads(lib: Library, a: Body, b: Body)
    requires Sound(lib) && MessagesAlike(lib, a, b)
    ensures PayloadsOf(lib, a) == PayloadsOf(lib, b)
    decreases |a|, 0
  {
    if lib.readMessage(a).Some? {
      AlikePayloads(lib, lib.readMessage(a).value, lib.readMessage(b).value);
    }
  }

  /**
   Two messages that differ only in line breaks and other bytes outside the alphabet within their
   base64 texts, however deeply these are nested, have the same hash input.
   */
  lemma {:induction false} NoiseIsNotHashed(lib: Library, a: Body, b: Body)
    requires Sound(lib) && MessagesAlike(lib, a, b)
    ensures Digest.HashedText(Texts(PayloadsOf(lib, a))) == Digest.HashedText(Texts(PayloadsOf(lib, b)))
  {
    MessagesAlikePayloads(lib, a, b);
  }
}
