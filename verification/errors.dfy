/**
 * Error values as the trees that errors.Is and errors.AsType walk.
 *
 * A node's children are what its Unwrap method yields: none, one (an oops wrap,
 * *net.OpError, *os.SyscallError, *clientx.Error) or several (errors.Join).
 */
module Errors {
  import opened Options

  datatype ErrorKind =
    | Unspecified // the empty string a caller passes to have the kind inferred
    | Unknown | Canceled | Timeout | Temporary | ConnRefused
    | Dns | Tls | Closed | Network | Codec
    | Custom(name: string)

  datatype Tag =
    | Plain(message: string)
    | ContextCanceled
    | ContextDeadlineExceeded
    | NetClosed
    | FileClosed
    | Errno(code: nat)
    | SyscallError
    | OpError
    | DnsError(dnsTimeout: bool)
    | OtherNetError(netTimeout: bool)
    | Annotation
    | Join
    | ClientError(protocol: string, op: string, addr: string, kind: ErrorKind)

  datatype Err = Err(tag: Tag, children: seq<Err>)

  const ECONNREFUSED: nat := 111
  const WSAECONNREFUSED: nat := 10061
  const EAGAIN: nat := 11
  const ETIMEDOUT: nat := 110

  predicate IsClient(l: Tag) { l.ClientError? }
  predicate IsCanceled(l: Tag) { l.ContextCanceled? }
  predicate IsDeadline(l: Tag) { l.ContextDeadlineExceeded? }
  predicate IsClosed(l: Tag) { l.NetClosed? || l.FileClosed? }
  predicate IsErrno(l: Tag) { l.Errno? }
  predicate IsRefusedErrno(l: Tag) { l == Errno(ECONNREFUSED) }
  predicate IsSyscall(l: Tag) { l.SyscallError? }
  predicate IsOp(l: Tag) { l.OpError? }
  predicate IsDns(l: Tag) { l.DnsError? }

  /** The node types with both Timeout and Temporary methods, that is the net.Error values. */
  predicate IsNet(l: Tag) {
    l.ContextDeadlineExceeded? || l.NetClosed? || l.Errno? || l.OpError? || l.DnsError? || l.OtherNetError?
    || l.ClientError?
  }

  function Size(e: Err): (n: nat)
    ensures |e.children| > 0 ==> Size(e.children[0]) < n
    decreases e, 1
  {
    1 + SizeAll(e.children)
  }

  function SizeAll(es: seq<Err>): nat
    decreases es, 0
  {
    if es == [] then 0 else Size(es[0]) + SizeAll(es[1..])
  }

  /** The depth-first search shared by errors.Is and errors.AsType. */
  function Find(e: Err, p: Tag -> bool): (r: Option<Err>)
    ensures r.Some? ==> p(r.value.tag) && Size(r.value) <= Size(e)
    decreases e, 1
  {
    if p(e.tag) then Some(e) else FindIn(e.children, p)
  }

  function FindIn(es: seq<Err>, p: Tag -> bool): (r: Option<Err>)
    ensures r.Some? ==> p(r.value.tag) && Size(r.value) <= SizeAll(es)
    decreases es, 0
  {
    if es == [] then None
    else
      var first := Find(es[0], p);
      if first.Some? then first else FindIn(es[1..], p)
  }

  predicate Has(e: Err, p: Tag -> bool) {
    Find(e, p).Some?
  }

  /** All nodes of a tree, parents before children and left before right. */
  function Preorder(e: Err): seq<Err>
    decreases e, 1
  {
    [e] + PreorderAll(e.children)
  }

  function PreorderAll(es: seq<Err>): seq<Err>
    decreases es, 0
  {
    if es == [] then [] else Preorder(es[0]) + PreorderAll(es[1..])
  }

  function FirstWith(es: seq<Err>, p: Tag -> bool): Option<Err> {
    if es == [] then None else if p(es[0].tag) then Some(es[0]) else FirstWith(es[1..], p)
  }

  lemma {:induction false} FirstWithConcat(a: seq<Err>, b: seq<Err>, p: Tag -> bool)
    ensures FirstWith(a + b, p) == if FirstWith(a, p).Some? then FirstWith(a, p) else FirstWith(b, p)
  {
    if a == [] {
      assert a + b == b;
    } else {
      FirstWithConcat(a[1..], b, p);
      assert (a + b)[1..] == a[1..] + b;
    }
  }

  /** The recursive search returns the first matching node of the flattened tree. */
  lemma {:induction false} FindIsFirstInPreorder(e: Err, p: Tag -> bool)
    ensures Find(e, p) == FirstWith(Preorder(e), p)
    decreases e, 1
  {
    FindInIsFirst(e.children, p);
    assert Preorder(e)[1..] == PreorderAll(e.children);
  }

  lemma {:induction false} FindInIsFirst(es: seq<Err>, p: Tag -> bool)
    ensures FindIn(es, p) == FirstWith(PreorderAll(es), p)
    decreases es, 0
  {
    if es == [] {
    } else {
      FindIsFirstInPreorder(es[0], p);
      FindInIsFirst(es[1..], p);
      FirstWithConcat(Preorder(es[0]), PreorderAll(es[1..]), p);
    }
  }

  lemma {:induction false} FirstWithNone(es: seq<Err>, p: Tag -> bool)
    ensures FirstWith(es, p).None? <==> forall n <- es :: !p(n.tag)
    ensures FirstWith(es, p).Some? ==> FirstWith(es, p).value in es
  {
    if es == [] {
    } else {
      FirstWithNone(es[1..], p);
      assert forall n :: n in es <==> n == es[0] || n in es[1..];
    }
  }

  lemma FindNodes(e: Err, p: Tag -> bool)
    ensures Has(e, p) <==> exists n <- Preorder(e) :: p(n.tag)
    ensures Has(e, p) ==> Find(e, p).value in Preorder(e)
  {
    FindIsFirstInPreorder(e, p);
    FirstWithNone(Preorder(e), p);
  }

  /** A subtree's nodes are nodes of the tree. */
  lemma {:induction false} SubtreeNodes(e: Err, s: Err)
    requires s in Preorder(e)
    ensures forall n <- Preorder(s) :: n in Preorder(e)
    decreases e, 1
  {
    if s != e {
      SubtreeNodesAll(e.children, s);
    }
  }

  lemma {:induction false} SubtreeNodesAll(es: seq<Err>, s: Err)
    requires s in PreorderAll(es)
    ensures forall n <- Preorder(s) :: n in PreorderAll(es)
    decreases es, 0
  {
    if s in Preorder(es[0]) {
      SubtreeNodes(es[0], s);
    } else {
      SubtreeNodesAll(es[1..], s);
    }
  }

  /** The childless nodes from left to right: the errors that were raised, without their wrapping. */
  function Leaves(e: Err): seq<Err>
    decreases e, 1
  {
    if e.children == [] then [e] else LeavesAll(e.children)
  }

  function LeavesAll(es: seq<Err>): seq<Err>
    decreases es, 0
  {
    if es == [] then [] else Leaves(es[0]) + LeavesAll(es[1..])
  }

  function LeavesOf(e: Option<Err>): seq<Err> {
    if e.None? then [] else Leaves(e.value)
  }

  /** oops' Wrapf: nil stays nil, anything else gains one annotation node. */
  function Annotate(e: Option<Err>): Option<Err> {
    if e.None? then None else Some(Err(Annotation, [e.value]))
  }

  /** errors.Join of two errors: nil arguments are discarded. */
  function JoinErrors(a: Option<Err>, b: Option<Err>): Option<Err> {
    if a.None? && b.None? then None
    else if a.None? then Some(Err(Join, [b.value]))
    else if b.None? then Some(Err(Join, [a.value]))
    else Some(Err(Join, [a.value, b.value]))
  }

  lemma JoinKeepsBoth(a: Option<Err>, b: Option<Err>)
    ensures LeavesOf(JoinErrors(a, b)) == LeavesOf(a) + LeavesOf(b)
    ensures a.Some? || b.Some? ==> JoinErrors(a, b).Some? && JoinErrors(a, b).value.tag == Join
    ensures a.Some? ==> a.value in Preorder(JoinErrors(a, b).value)
    ensures b.Some? ==> b.value in Preorder(JoinErrors(a, b).value)
  {
    if a.Some? && b.Some? {
      var es := [a.value, b.value];
      assert es[1..] == [b.value] && es[1..][1..] == [];
      assert LeavesAll(es) == Leaves(a.value) + LeavesAll([b.value]);
      assert LeavesAll([b.value]) == Leaves(b.value) + LeavesAll([]);
      assert PreorderAll(es) == Preorder(a.value) + PreorderAll([b.value]);
      assert PreorderAll([b.value]) == Preorder(b.value) + PreorderAll([]);
    } else if a.Some? || b.Some? {
      var x := if a.Some? then a.value else b.value;
      assert [x][1..] == [];
      assert LeavesAll([x]) == Leaves(x) + LeavesAll([]);
      assert PreorderAll([x]) == Preorder(x) + PreorderAll([]);
    }
  }

  /** Searching a join looks left first; searching an annotation looks inside. */
  lemma FindThroughJoin(a: Option<Err>, b: Option<Err>, p: Tag -> bool)
    requires !p(Join)
    requires a.Some? || b.Some?
    ensures Find(JoinErrors(a, b).value, p)
         == if a.Some? && Has(a.value, p) then Find(a.value, p) else if b.Some? then Find(b.value, p) else None
  {
    if a.Some? && b.Some? {
      var es := [a.value, b.value];
      assert es[1..] == [b.value] && es[1..][1..] == [];
      assert FindIn([b.value], p) == Find(b.value, p);
    } else {
      var x := if a.Some? then a.value else b.value;
      assert [x][1..] == [];
    }
  }

  lemma FindThroughAnnotation(e: Err, p: Tag -> bool)
    requires !p(Annotation)
    ensures Annotate(Some(e)).Some? && Annotate(Some(e)).value.tag == Annotation && Annotate(None).None?
    ensures Find(Annotate(Some(e)).value, p) == Find(e, p)
  {
    assert [e][1..] == [];
  }
}
