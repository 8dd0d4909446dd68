/**
 * A parsed MIME message as a tree of parts, the pre-order traversal that
 * `Message.walk()` performs, and the test that makes a part an attachment.
 */
module MimeTree {
  import opened Prelude

  /**
   * A part: its content disposition (already lower-cased by the parser, or
   * absent), its `filename` parameter (absent or possibly empty), and either
   * a decoded body or the sub-parts of a multipart container.
   */
  datatype Part =
    | Leaf(disposition: Option<string>, filename: Option<string>, body: seq<byte>)
    | Multipart(disposition: Option<string>, filename: Option<string>, children: seq<Part>)

  /** `get_payload(decode=True)`: the body of a leaf, `None` for a container. */
  function Payload(p: Part): (r: Option<seq<byte>>)
    ensures r.Some? <==> p.Leaf?
  {
    match p
    case Leaf(_, _, body) => Some(body)
    case Multipart(_, _, _) => None
  }

  /** `Message.walk()`: the part itself, then each child's walk, in order. */
  function Walk(p: Part): (ps: seq<Part>)
    ensures |ps| >= 1 && ps[0] == p
    decreases p, 1
  {
    match p
    case Leaf(_, _, _) => [p]
    case Multipart(_, _, cs) => [p] + WalkAll(cs, p)
  }

  /** The walks of `cs`, one after the other; `parent` only bounds the recursion. */
  function WalkAll(cs: seq<Part>, ghost parent: Part): seq<Part>
    requires forall i :: 0 <= i < |cs| ==> cs[i] < parent
    decreases parent, 0, |cs|
  {
    if cs == [] then [] else Walk(cs[0]) + WalkAll(cs[1..], parent)
  }

  /** Number of parts in the tree, counted directly on its structure. */
  function Size(p: Part): nat
    decreases p, 1
  {
    match p
    case Leaf(_, _, _) => 1
    case Multipart(_, _, cs) => 1 + SizeAll(cs, p)
  }

  function SizeAll(cs: seq<Part>, ghost parent: Part): nat
    requires forall i :: 0 <= i < |cs| ==> cs[i] < parent
    decreases parent, 0, |cs|
  {
    if cs == [] then 0 else Size(cs[0]) + SizeAll(cs[1..], parent)
  }

  /** `q` is `p` or lies somewhere below it, at any depth. */
  predicate Contains(p: Part, q: Part)
    decreases p, 1
  {
    p == q || (p.Multipart? && ContainsAny(p.children, q, p))
  }

  predicate ContainsAny(cs: seq<Part>, q: Part, ghost parent: Part)
    requires forall i :: 0 <= i < |cs| ==> cs[i] < parent
    decreases parent, 0, |cs|
  {
    cs != [] && (Contains(cs[0], q) || ContainsAny(cs[1..], q, parent))
  }

  /** A part is saved when its disposition is exactly "attachment" and it has a non-empty filename. */
  predicate IsAttachment(p: Part)
  {
    p.disposition == Some("attachment") && p.filename.Some? && p.filename.value != ""
  }

  /**
   * The attachments among `ps`, in their order: every attachment of `ps`
   * is kept, as often as it occurs, and nothing else. Order is stated by
   * `AttachmentsAppend`.
   */
  function Attachments(ps: seq<Part>): (r: seq<Part>)
    ensures forall i :: 0 <= i < |r| ==> IsAttachment(r[i])
    ensures multiset(r) <= multiset(ps)
    ensures forall p :: IsAttachment(p) ==> multiset(r)[p] == multiset(ps)[p]
  {
    if ps == [] then []
    else
      var before, last := ps[..|ps| - 1], ps[|ps| - 1];
      assert ps == before + [last];
      Attachments(before) + if IsAttachment(last) then [last] else []
  }

  /** Number of attachments in the tree, counted directly on its structure. */
  function AttachmentCount(p: Part): nat
    decreases p, 1
  {
    (if IsAttachment(p) then 1 else 0) +
    match p
    case Leaf(_, _, _) => 0
    case Multipart(_, _, cs) => AttachmentCountAll(cs, p)
  }

  function AttachmentCountAll(cs: seq<Part>, ghost parent: Part): nat
    requires forall i :: 0 <= i < |cs| ==> cs[i] < parent
    decreases parent, 0, |cs|
  {
    if cs == [] then 0 else AttachmentCount(cs[0]) + AttachmentCountAll(cs[1..], parent)
  }

  /** Selecting attachments keeps their order: those of `a` come before those of `b`. */
  lemma {:induction false} AttachmentsAppend(a: seq<Part>, b: seq<Part>)
    ensures Attachments(a + b) == Attachments(a) + Attachments(b)
    decreases |b|
  {
    if b == [] {
      assert a + b == a;
    } else {
      var b' := b[..|b| - 1];
      assert (a + b)[..|a + b| - 1] == a + b';
      AttachmentsAppend(a, b');
    }
  }

  /** The walk visits every part of the tree exactly once: its length is the tree's size. */
  lemma {:induction false} WalkSize(p: Part)
    ensures |Walk(p)| == Size(p)
    decreases p, 1
  {
    match p
    case Leaf(_, _, _) =>
    case Multipart(_, _, cs) => WalkAllSize(cs, p);
  }

  lemma {:induction false} WalkAllSize(cs: seq<Part>, parent: Part)
    requires forall i :: 0 <= i < |cs| ==> cs[i] < parent
    ensures |WalkAll(cs, parent)| == SizeAll(cs, parent)
    decreases parent, 0, |cs|
  {
    if cs != [] {
      WalkSize(cs[0]);
      WalkAllSize(cs[1..], parent);
    }
  }

  /** A part is visited by the walk exactly when it lies in the tree. */
  lemma {:induction false} WalkVisitsContained(p: Part, q: Part)
    ensures q in Walk(p) <==> Contains(p, q)
    decreases p, 1
  {
    match p
    case Leaf(_, _, _) =>
    case Multipart(_, _, cs) => WalkAllVisitsContained(cs, q, p);
  }

  lemma {:induction false} WalkAllVisitsContained(cs: seq<Part>, q: Part, parent: Part)
    requires forall i :: 0 <= i < |cs| ==> cs[i] < parent
    ensures q in WalkAll(cs, parent) <==> ContainsAny(cs, q, parent)
    decreases parent, 0, |cs|
  {
    if cs != [] {
      WalkVisitsContained(cs[0], q);
      WalkAllVisitsContained(cs[1..], q, parent);
    }
  }

  /** Walking finds every attachment of the tree, whatever its nesting depth. */
  lemma {:induction false} WalkFindsAllAttachments(p: Part)
    ensures |Attachments(Walk(p))| == AttachmentCount(p)
    decreases p, 1
  {
    assert [p][..0] == [];
    var own := |Attachments([p])|;
    assert own == if IsAttachment(p) then 1 else 0;
    match p
    case Leaf(_, _, _) =>
    case Multipart(_, _, cs) =>
      AttachmentsAppend([p], WalkAll(cs, p));
      WalkAllFindsAllAttachments(cs, p);
      assert AttachmentCount(p) == own + AttachmentCountAll(cs, p);
  }

  lemma {:induction false} WalkAllFindsAllAttachments(cs: seq<Part>, parent: Part)
    requires forall i :: 0 <= i < |cs| ==> cs[i] < parent
    ensures |Attachments(WalkAll(cs, parent))| == AttachmentCountAll(cs, parent)
    decreases parent, 0, |cs|
  {
    if cs != [] {
      AttachmentsAppend(Walk(cs[0]), WalkAll(cs[1..], parent));
      WalkFindsAllAttachments(cs[0]);
      WalkAllFindsAllAttachments(cs[1..], parent);
    }
  }
}
