/** Classification, wrapping and retryability of error trees. */
module Kinds {
  import opened Options
  import opened Errors

  /** Timeout() of the node types that have one; every other type counts as false. */
  function TimesOut(e: Err): bool
    decreases Size(e)
  {
    match e.tag
    case ContextDeadlineExceeded => true
    case Errno(code) => code == EAGAIN || code == ETIMEDOUT
    case DnsError(t) => t
    case OtherNetError(t) => t
    case SyscallError => |e.children| > 0 && TimesOut(e.children[0])
    case OpError => |e.children| > 0 && TimesOut(e.children[0])
    case ClientError(_, _, _, kind) =>
      kind == Timeout ||
      (var net := FindIn(e.children, IsNet);
       net.Some? && TimesOut(net.value))
    case _ => false
  }

  predicate NetTimesOut(e: Err) {
    var net := Find(e, IsNet);
    net.Some? && TimesOut(net.value)
  }

  function IsConnRefused(e: Err): bool
    decreases Size(e)
  {
    if Has(e, IsRefusedErrno) then true
    else
      var errno := Find(e, IsErrno);
      if errno.Some? then
        errno.value.tag.code == ECONNREFUSED || errno.value.tag.code == WSAECONNREFUSED
      else
        var sys := Find(e, IsSyscall);
        sys.Some? && |sys.value.children| > 0 && IsConnRefused(sys.value.children[0])
  }

  function ClassifyContext(e: Err): Option<ErrorKind> {
    if Has(e, IsCanceled) then Some(Canceled)
    else if Has(e, IsDeadline) then Some(Timeout)
    else None
  }

  function ClassifyNetwork(e: Err): Option<ErrorKind> {
    if Has(e, IsDns) then Some(Dns)
    else if NetTimesOut(e) then Some(Timeout)
    else
      var op := Find(e, IsOp);
      if op.Some? then
        if |op.value.children| > 0 && IsConnRefused(op.value.children[0]) then Some(ConnRefused) else Some(Network)
      else if IsConnRefused(e) then Some(ConnRefused)
      else if Has(e, IsNet) then Some(Network)
      else None
  }

  /** What the substring tests on the rendered message can answer. */
  type MessageKind = k: ErrorKind | k.Tls? || k.Closed? || k.Network? || k.Unknown? witness Unknown

  /** `byMessage` stands for those tests. */
  function Classify(e: Err, byMessage: Err -> MessageKind): ErrorKind {
    var context := ClassifyContext(e);
    if context.Some? then context.value
    else if Has(e, IsClosed) then Closed
    else
      var network := ClassifyNetwork(e);
      if network.Some? then network.value else byMessage(e)
  }

  function WrapErrorWithKind(protocol: string, op: string, addr: string, kind: ErrorKind, e: Option<Err>,
                             byMessage: Err -> MessageKind): Option<Err>
  {
    if e.None? then None
    else if Has(e.value, IsClient) then e
    else
      var protocol' := if protocol == "" then "unknown" else protocol;
      var kind' := if kind.Unspecified? then Classify(e.value, byMessage) else kind;
      Some(Err(ClientError(protocol', op, addr, kind'), [e.value]))
  }

  function WrapError(
    protocol: string, op: string, addr: string, e: Option<Err>, byMessage: Err -> MessageKind): Option<Err> {
    WrapErrorWithKind(protocol, op, addr, Unspecified, e, byMessage)
  }

  function KindOf(e: Option<Err>): ErrorKind {
    if e.None? then Unknown
    else
      var client := Find(e.value, IsClient);
      if client.None? then Unknown else client.value.tag.kind
  }

  predicate RetryableKind(k: ErrorKind) {
    k.Timeout? || k.Temporary? || k.ConnRefused? || k.Dns? || k.Network?
  }

  function DefaultRetryable(e: Option<Err>): bool {
    if e.None? then false
    else if Has(e.value, IsCanceled) then false
    else if Has(e.value, IsDeadline) then true
    else
      var kind := KindOf(e);
      if RetryableKind(kind) then true
      else if kind.Unknown? || kind.Canceled? || kind.Closed? || kind.Tls? || kind.Codec? then false
      else NetTimesOut(e.value)
  }

  // ---------------------------------------------------------------------------------------------
  // Refused connections
  // ---------------------------------------------------------------------------------------------

  /** The third branch of the recursion never answers yes: it is reached only without any errno. */
  lemma {:induction false} NoErrnoNotRefused(e: Err)
    requires !Has(e, IsErrno)
    ensures !IsConnRefused(e)
    decreases Size(e)
  {
    FindNodes(e, IsErrno);
    FindNodes(e, IsRefusedErrno);
    var sys := Find(e, IsSyscall);
    if sys.Some? && |sys.value.children| > 0 {
      FindNodes(e, IsSyscall);
      SubtreeNodes(e, sys.value);
      var inner := sys.value.children[0];
      FirstChildNodes(sys.value);
      FindNodes(inner, IsErrno);
      NoErrnoNotRefused(inner);
    }
  }

  lemma FirstChildNodes(e: Err)
    requires |e.children| > 0
    ensures Size(e.children[0]) < Size(e)
    ensures forall n <- Preorder(e.children[0]) :: n in Preorder(e)
  {
  }

  /** The recursive test is the flat one: ECONNREFUSED anywhere, or 10061 as the first errno. */
  lemma ConnRefusedFlatForm(e: Err)
    ensures IsConnRefused(e)
       <==> Has(e, IsRefusedErrno) || (Has(e, IsErrno) && Find(e, IsErrno).value.tag.code == WSAECONNREFUSED)
  {
    if !Has(e, IsErrno) {
      NoErrnoNotRefused(e);
    } else if Find(e, IsErrno).value.tag.code == ECONNREFUSED {
      FindNodes(e, IsErrno);
      FindNodes(e, IsRefusedErrno);
    }
  }

  // ---------------------------------------------------------------------------------------------
  // Classification
  // ---------------------------------------------------------------------------------------------

  /** Some node of the tree has the type; Has, the search, finds one exactly then. */
  ghost predicate Contains(e: Err, p: Tag -> bool) {
    exists n <- Preorder(e) :: p(n.tag)
  }

  ghost predicate Ended(e: Err) {
    Contains(e, IsCanceled) || Contains(e, IsDeadline)
  }

  ghost predicate Refused(e: Err) {
    Contains(e, IsRefusedErrno) || (Has(e, IsErrno) && Find(e, IsErrno).value.tag.code == WSAECONNREFUSED)
  }

  lemma RefusedAgrees(e: Err)
    ensures IsConnRefused(e) <==> Refused(e)
  {
    ConnRefusedFlatForm(e);
    FindNodes(e, IsRefusedErrno);
  }

  /** Some test before those for refused and other network errors applies. */
  ghost predicate Outranked(e: Err) {
    Ended(e) || Contains(e, IsClosed) || Contains(e, IsDns) || NetTimesOut(e)
  }

  /** A refused connection: under the first *net.OpError if there is one, else anywhere. */
  ghost predicate RefusedWhereItCounts(e: Err) {
    var op := FirstWith(Preorder(e), IsOp);
    if op.Some? then op.value.children != [] && Refused(op.value.children[0]) else Refused(e)
  }

  /**
   * When a kind is chosen, in terms of what the tree contains anywhere: cancellation outranks a deadline, both
   * outrank a closed connection, that outranks a DNS error, that any other timeout, and that the rest. The
   * message decides only where no typed test does.
   */
  lemma ClassifyExactly(e: Err, byMessage: Err -> MessageKind)
    ensures Classify(e, byMessage) == Canceled <==> Contains(e, IsCanceled)
    ensures Classify(e, byMessage) == Dns <==> !Ended(e) && !Contains(e, IsClosed) && Contains(e, IsDns)
    ensures Classify(e, byMessage) == Timeout
       <==> !Contains(e, IsCanceled)
            && (Contains(e, IsDeadline) || (!Contains(e, IsClosed) && !Contains(e, IsDns) && NetTimesOut(e)))
    ensures !Ended(e) && Contains(e, IsClosed) ==> Classify(e, byMessage) == Closed
  {
    FindNodes(e, IsCanceled);
    FindNodes(e, IsDeadline);
    FindNodes(e, IsClosed);
    FindNodes(e, IsDns);
  }

  lemma OutrankedAgrees(e: Err)
    ensures Outranked(e) <==> ClassifyContext(e).Some? || Has(e, IsClosed) || Has(e, IsDns) || NetTimesOut(e)
  {
    FindNodes(e, IsCanceled);
    FindNodes(e, IsDeadline);
    FindNodes(e, IsClosed);
    FindNodes(e, IsDns);
  }

  lemma RefusedWhereItCountsAgrees(e: Err)
    ensures var op := Find(e, IsOp);
            RefusedWhereItCounts(e)
            == if op.Some? then |op.value.children| > 0 && IsConnRefused(op.value.children[0]) else IsConnRefused(e)
  {
    FindIsFirstInPreorder(e, IsOp);
    RefusedAgrees(e);
    var op := Find(e, IsOp);
    if op.Some? && op.value.children != [] {
      RefusedAgrees(op.value.children[0]);
    }
  }

  /** Below all of those: a refused connection, another network error, or what the message says. */
  lemma ClassifyRefusedExactly(e: Err, byMessage: Err -> MessageKind)
    ensures Classify(e, byMessage) == ConnRefused <==> !Outranked(e) && RefusedWhereItCounts(e)
    ensures !Outranked(e) && !RefusedWhereItCounts(e) ==>
              Classify(e, byMessage)
              == if Contains(e, IsOp) || Contains(e, IsNet) then Network else byMessage(e)
  {
    FindNodes(e, IsNet);
    FindNodes(e, IsOp);
    OutrankedAgrees(e);
    RefusedWhereItCountsAgrees(e);
  }

  /** No typed test applies, so that the message decides. */
  ghost predicate Untyped(e: Err) {
    !Outranked(e) && !RefusedWhereItCounts(e) && !Contains(e, IsOp) && !Contains(e, IsNet)
  }

  /** A closed connection: by type unless the operation had ended, or by message where no typed test applies. */
  lemma ClassifyClosedExactly(e: Err, byMessage: Err -> MessageKind)
    ensures Classify(e, byMessage) == Closed
       <==> (!Ended(e) && Contains(e, IsClosed)) || (Untyped(e) && byMessage(e) == Closed)
  {
    ClassifyExactly(e, byMessage);
    ClassifyRefusedExactly(e, byMessage);
  }

  // ---------------------------------------------------------------------------------------------
  // Wrapping
  // ---------------------------------------------------------------------------------------------

  /** Wrapping a second time, whatever the arguments, changes nothing: the first kind stays. */
  lemma WrapIdempotent(
    p1: string, o1: string, a1: string, k1: ErrorKind, 
    p2: string, o2: string, a2: string, k2: ErrorKind,
    e: Option<Err>, byMessage: Err -> MessageKind)
    ensures var once := WrapErrorWithKind(p1, o1, a1, k1, e, byMessage);
            && WrapErrorWithKind(p2, o2, a2, k2, once, byMessage) == once
            && (e.Some? ==> Has(once.value, IsClient) && e.value in Preorder(once.value))
  {
    if e.Some? {
      var once := WrapErrorWithKind(p1, o1, a1, k1, e, byMessage).value;
      assert Preorder(e.value) + PreorderAll([e.value][1..]) == PreorderAll([e.value]);
      assert e.value in Preorder(e.value);
    }
  }

  /** Ways in which this library builds an error from errors it did not create. */
  datatype Recipe =
    | Foreign(e: Err)
    | Classified(protocol: string, op: string, addr: string, kind: ErrorKind, inner: Recipe)
    | Annotated(inner: Recipe)
    | JoinedParts(parts: seq<Recipe>)

  predicate ForeignLeaves(r: Recipe)
    decreases r
  {
    match r
    case Foreign(e) => !Has(e, IsClient)
    case Classified(_, _, _, _, inner) => ForeignLeaves(inner)
    case Annotated(inner) => ForeignLeaves(inner)
    case JoinedParts(parts) => forall p <- parts :: ForeignLeaves(p)
  }

  function Build(r: Recipe, byMessage: Err -> MessageKind): Err
    decreases r, 1
  {
    match r
    case Foreign(e) => e
    case Classified(protocol, op, addr, kind, inner) =>
      WrapErrorWithKind(protocol, op, addr, kind, Some(Build(inner, byMessage)), byMessage).value
    case Annotated(inner) => Annotate(Some(Build(inner, byMessage))).value
    case JoinedParts(parts) => Err(Join, BuildAll(parts, byMessage))
  }

  function BuildAll(rs: seq<Recipe>, byMessage: Err -> MessageKind): seq<Err>
    decreases rs, 0
  {
    if rs == [] then [] else [Build(rs[0], byMessage)] + BuildAll(rs[1..], byMessage)
  }

  /** The kind that was fixed first, reading wraps from the inside out and joins from left to right. */
  function FirstKind(r: Recipe, byMessage: Err -> MessageKind): Option<ErrorKind>
    decreases r, 1
  {
    match r
    case Foreign(_) => None
    case Classified(_, _, _, kind, inner) =>
      var fixed := FirstKind(inner, byMessage);
      if fixed.Some? then fixed
      else Some(if kind.Unspecified? then Classify(Build(inner, byMessage), byMessage) else kind)
    case Annotated(inner) => FirstKind(inner, byMessage)
    case JoinedParts(parts) => FirstKindAmong(parts, byMessage)
  }

  function FirstKindAmong(rs: seq<Recipe>, byMessage: Err -> MessageKind): Option<ErrorKind>
    decreases rs, 0
  {
    if rs == [] then None
    else
      var fixed := FirstKind(rs[0], byMessage);
      if fixed.Some? then fixed else FirstKindAmong(rs[1..], byMessage)
  }

  /** No *Error is an ancestor of another. */
  ghost predicate ClientsApart(es: seq<Err>) {
    forall n <- PreorderAll(es) :: n.tag.ClientError? ==> FindIn(n.children, IsClient).None?
  }

  /**
   * Over every construction: *Error nodes are never nested, one is present exactly when some wrap
   * fixed a kind, and KindOf reports the kind fixed first.
   */
  lemma {:induction false} BuiltErrors(r: Recipe, byMessage: Err -> MessageKind)
    requires ForeignLeaves(r)
    ensures ClientsApart([Build(r, byMessage)])
    ensures Has(Build(r, byMessage), IsClient) <==> FirstKind(r, byMessage).Some?
    ensures FirstKind(r, byMessage).Some? ==> KindOf(Some(Build(r, byMessage))) == FirstKind(r, byMessage).value
    decreases r, 1
  {
    var e := Build(r, byMessage);
    SingleNodes(e);
    match r
    case Foreign(_) =>
      FindNodes(e, IsClient);
    case Classified(_, _, _, _, inner) =>
      BuiltErrors(inner, byMessage);
      SingleNodes(Build(inner, byMessage));
      SingleFind(Build(inner, byMessage), IsClient);
    case Annotated(inner) =>
      BuiltErrors(inner, byMessage);
      SingleNodes(Build(inner, byMessage));
      SingleFind(Build(inner, byMessage), IsClient);
    case JoinedParts(parts) =>
      BuiltAllErrors(parts, byMessage);
  }

  lemma {:induction false} BuiltAllErrors(rs: seq<Recipe>, byMessage: Err -> MessageKind)
    requires forall r <- rs :: ForeignLeaves(r)
    ensures var es := BuildAll(rs, byMessage);
            var first := FindIn(es, IsClient);
            && ClientsApart(es)
            && (first.Some? <==> FirstKindAmong(rs, byMessage).Some?)
            && (first.Some? ==> first.value.tag.kind == FirstKindAmong(rs, byMessage).value)
    decreases rs, 0
  {
    if rs == [] {
    } else {
      BuiltErrors(rs[0], byMessage);
      SingleNodes(Build(rs[0], byMessage));
      BuiltAllErrors(rs[1..], byMessage);
      assert BuildAll(rs, byMessage)[1..] == BuildAll(rs[1..], byMessage);
    }
  }

  /** KindOf reads the first *Error in preorder, and answers Unknown where there is none. */
  lemma KindIsFirstClient(e: Option<Err>, k: nat)
    requires e.Some? ==> k <= |Preorder(e.value)|
    requires e.Some? ==> forall j <- Preorder(e.value)[..k] :: !j.tag.ClientError?
    ensures e.None? || k == |Preorder(e.value)| ==> KindOf(e) == Unknown
    ensures e.Some? && k < |Preorder(e.value)| && Preorder(e.value)[k].tag.ClientError?
            ==> KindOf(e) == Preorder(e.value)[k].tag.kind
  {
    if e.Some? {
      FindIsFirstInPreorder(e.value, IsClient);
      FirstAfter(Preorder(e.value), IsClient, k);
    }
  }

  /** The first k nodes do not satisfy p, so that the search goes on behind them. */
  lemma {:induction false} FirstAfter(es: seq<Err>, p: Tag -> bool, k: nat)
    requires k <= |es|
    requires forall n <- es[..k] :: !p(n.tag)
    ensures FirstWith(es, p) == FirstWith(es[k..], p)
  {
    if k > 0 {
      assert es[0] in es[..k] && es[1..][..k - 1] == es[..k][1..];
      FirstAfter(es[1..], p, k - 1);
      assert es[1..][k - 1..] == es[k..];
    } else {
      assert es[0..] == es;
    }
  }

  lemma SingleNodes(e: Err)
    ensures PreorderAll([e]) == Preorder(e)
  {
    assert [e][1..] == [];
    assert PreorderAll([e]) == Preorder(e) + PreorderAll([]);
  }

  lemma SingleFind(e: Err, p: Tag -> bool)
    ensures FindIn([e], p) == Find(e, p)
  {
    assert [e][1..] == [];
  }

  // ---------------------------------------------------------------------------------------------
  // Retryability
  // ---------------------------------------------------------------------------------------------

  /** Without an *Error inside, only a deadline that is not a cancellation is retried. */
  lemma ForeignRetryable(e: Err)
    requires !Has(e, IsClient)
    ensures DefaultRetryable(Some(e)) <==> Has(e, IsDeadline) && !Has(e, IsCanceled)
  {
  }

  /** Classifier and retry predicate agree: a wrapped foreign error is retried exactly for a retryable kind. */
  lemma WrappedRetryable(protocol: string, op: string, addr: string, e: Err, byMessage: Err -> MessageKind)
    requires !Has(e, IsClient)
    ensures var w := WrapError(protocol, op, addr, Some(e), byMessage);
            && KindOf(w) == Classify(e, byMessage)
            && (DefaultRetryable(w) <==> RetryableKind(Classify(e, byMessage)))
  {
    var w := WrapError(protocol, op, addr, Some(e), byMessage).value;
    SingleFind(e, IsCanceled);
    SingleFind(e, IsDeadline);
    assert Find(w, IsCanceled) == Find(e, IsCanceled);
    assert Find(w, IsDeadline) == Find(e, IsDeadline);
  }

  /** Wrapping keeps a timeout visible through net.Error, and adds one only for a bare deadline. */
  lemma TimeoutSurvivesWrap(protocol: string, op: string, addr: string, e: Err, byMessage: Err -> MessageKind)
    requires !Has(e, IsClient)
    ensures NetTimesOut(WrapError(protocol, op, addr, Some(e), byMessage).value)
       <==> NetTimesOut(e) || (Has(e, IsDeadline) && !Has(e, IsCanceled))
  {
    SingleFind(e, IsNet);
  }

  /** Retryability for every kind that a client error can carry, unless the tree holds an ended context. */
  lemma RetryableByKind(e: Err)
    requires Has(e, IsClient) && !Has(e, IsCanceled) && !Has(e, IsDeadline)
    ensures var kind := Find(e, IsClient).value.tag.kind;
            match kind
            case Timeout => DefaultRetryable(Some(e))
            case Temporary => DefaultRetryable(Some(e))
            case ConnRefused => DefaultRetryable(Some(e))
            case Dns => DefaultRetryable(Some(e))
            case Network => DefaultRetryable(Some(e))
            case Unknown => !DefaultRetryable(Some(e))
            case Canceled => !DefaultRetryable(Some(e))
            case Closed => !DefaultRetryable(Some(e))
            case Tls => !DefaultRetryable(Some(e))
            case Codec => !DefaultRetryable(Some(e))
            case Unspecified => DefaultRetryable(Some(e)) <==> NetTimesOut(e)
            case Custom(_) => DefaultRetryable(Some(e)) <==> NetTimesOut(e)
  {
  }

  /** An ended context decides before any kind does: a cancellation against a retry, else a deadline for it. */
  lemma RetryableByContext(e: Err)
    ensures Has(e, IsCanceled) ==> !DefaultRetryable(Some(e))
    ensures !Has(e, IsCanceled) && Has(e, IsDeadline) ==> DefaultRetryable(Some(e))
    ensures !DefaultRetryable(None)
  {
  }

  /** What a wrapped foreign error records. */
  lemma WrapRecords(protocol: string, op: string, addr: string, kind: ErrorKind, e: Err, byMessage: Err -> MessageKind)
    requires !Has(e, IsClient)
    ensures var w := WrapErrorWithKind(protocol, op, addr, kind, Some(e), byMessage);
            && w.Some? && w.value.children == [e] && w.value.tag.ClientError?
            && w.value.tag.op == op && w.value.tag.addr == addr
            && w.value.tag.protocol == (if protocol == "" then "unknown" else protocol)
            && (kind != Unspecified ==> w.value.tag.kind == kind)
            && WrapErrorWithKind(protocol, op, addr, kind, None, byMessage).None?
  {
  }

  /** Which single errors time out, and which are values of net.Error at all. */
  lemma TimeoutsByType(code: nat, timeout: bool, message: string)
    ensures NetTimesOut(Err(ContextDeadlineExceeded, []))
    ensures NetTimesOut(Err(Errno(code), [])) <==> code == 11 || code == 110
    ensures NetTimesOut(Err(DnsError(timeout), [])) <==> timeout
    ensures NetTimesOut(Err(OtherNetError(timeout), [])) <==> timeout
    ensures !NetTimesOut(Err(NetClosed, [])) && !NetTimesOut(Err(FileClosed, []))
    ensures !NetTimesOut(Err(ContextCanceled, [])) && !NetTimesOut(Err(Plain(message), []))
    ensures !NetTimesOut(Err(OpError, [])) && !NetTimesOut(Err(SyscallError, []))
  {
    assert FindIn([], IsNet).None?;
  }

  /** *net.OpError and *os.SyscallError ask the error inside them. */
  lemma TimeoutsThroughWraps(e: Err)
    ensures NetTimesOut(Err(OpError, [e])) <==> TimesOut(e)
    ensures TimesOut(Err(SyscallError, [e])) <==> TimesOut(e)
  {
    assert Find(Err(OpError, [e]), IsNet) == Some(Err(OpError, [e]));
  }

  /** A client error times out by its kind, or by the first net.Error inside; an annotation only lets one through. */
  lemma TimeoutsThroughClient(e: Err, protocol: string, op: string, addr: string, kind: ErrorKind)
    ensures NetTimesOut(Err(ClientError(protocol, op, addr, kind), [e])) <==> kind == Timeout || NetTimesOut(e)
    ensures NetTimesOut(Err(Annotation, [e])) <==> NetTimesOut(e)
  {
    var client := Err(ClientError(protocol, op, addr, kind), [e]);
    assert Find(client, IsNet) == Some(client);
    SingleFind(e, IsNet);
  }

  /** The tests on single error types. */
  lemma TypeTests(code: nat, message: string, b: bool)
    ensures IsCanceled(ContextCanceled) && IsDeadline(ContextDeadlineExceeded) && !IsCanceled(ContextDeadlineExceeded)
    ensures IsClosed(NetClosed) && IsClosed(FileClosed) && IsDns(DnsError(b))
            && IsOp(OpError) && IsSyscall(SyscallError)
    ensures IsErrno(Errno(code)) && (IsRefusedErrno(Errno(code)) <==> code == 111)
    ensures IsNet(NetClosed) && IsNet(OpError) && IsNet(DnsError(b)) && IsNet(OtherNetError(b)) && IsNet(Errno(code))
    ensures !IsNet(FileClosed) && !IsNet(SyscallError) && !IsNet(Plain(message)) && !IsNet(Annotation) && !IsNet(Join)
    ensures IsConnRefused(Err(Errno(code), [])) <==> code == 111 || code == 10061
  {
    ConnRefusedFlatForm(Err(Errno(code), []));
    assert FindIn([], IsRefusedErrno).None?;
  }
}
