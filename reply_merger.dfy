/**
 * The document protocol's reply merger: the replies of the replicas that
 * answered one document operation are merged, one `Merge` call per reply,
 * and `MergedReply` then gives the single reply the client sees, together
 * with the index of the replica it came from (or no index when the reply
 * was built by the merger).
 */
module ReplyMerging {
  import opened Wrappers

  /** DocumentProtocol.ERROR_MESSAGE_IGNORED: a reply whose only errors carry this code is noise. */
  const ErrorMessageIgnored: int := 251001
  /** DocumentProtocol.ERROR_ABORTED: one substantive error code among many. */
  const ErrorAborted: int := 151004

  /** One entry of a reply's error list. */
  datatype Error = Error(code: int, message: string)

  /** What a reply tells beyond its errors. */
  datatype ReplyKind =
    | Generic                                // EmptyReply and every other plain reply
    | FoundAware(wasFound: bool)             // RemoveDocumentReply, UpdateDocumentReply
    | Get(lastModified: int)                 // GetDocumentReply; 0 when no document was retrieved

  datatype Reply = Reply(errors: seq<Error>, kind: ReplyKind) {
    /** Reply.addError: appends to the error list. */
    function AddError(e: Error): (r: Reply)
      ensures r.errors == errors + [e] && r.kind == kind
    {
      this.(errors := errors + [e])
    }
  }

  /** A fresh `new EmptyReply()`. */
  const EmptyReply: Reply := Reply([], Generic)

  /** One `merge(index, reply)` call. */
  datatype Indexed = Indexed(index: int, reply: Reply)

  /** The pair returned by `mergedReply()`: the index is None when the reply is not one of the inputs. */
  datatype MergeResult = MergeResult(index: Option<int>, reply: Reply)

  // ---------------------------------------------------------------------
  // Classification of a single reply

  predicate IsIgnored(e: Error) {
    e.code == ErrorMessageIgnored
  }

  /** No errors at all. */
  predicate Clean(r: Reply) {
    |r.errors| == 0
  }

  /** Has errors, and every one of them is ERROR_MESSAGE_IGNORED. */
  predicate OnlyIgnored(r: Reply) {
    |r.errors| > 0 && forall i :: 0 <= i < |r.errors| ==> IsIgnored(r.errors[i])
  }

  /** Has at least one error that is not ERROR_MESSAGE_IGNORED. */
  predicate Substantive(r: Reply) {
    exists i :: 0 <= i < |r.errors| && !IsIgnored(r.errors[i])
  }

  /** A successful reply that located a document (found remove/update, get with a timestamp). */
  predicate Found(r: Reply) {
    match r.kind
    case Generic => false
    case FoundAware(wasFound) => wasFound
    case Get(lastModified) => lastModified > 0
  }

  /** Every reply falls into exactly one of the three error classes. */
  lemma ClassesPartition(r: Reply)
    ensures Clean(r) || OnlyIgnored(r) || Substantive(r)
    ensures !(Clean(r) && OnlyIgnored(r)) && !(Clean(r) && Substantive(r)) && !(OnlyIgnored(r) && Substantive(r))
  {
  }

  // ---------------------------------------------------------------------
  // Folds over the merged replies, in merge order

  predicate AnySubstantive(rs: seq<Indexed>) {
    exists k :: 0 <= k < |rs| && Substantive(rs[k].reply)
  }

  /** All errors, ignored ones included, of the replies with a substantive error, in merge order. */
  function SubstantiveErrors(rs: seq<Indexed>): (es: seq<Error>)
    ensures forall e :: e in es <==> exists k :: 0 <= k < |rs| && Substantive(rs[k].reply) && e in rs[k].reply.errors
  {
    if rs == [] then []
    else
      var tail := SubstantiveErrors(rs[1..]);
      assert forall k :: 1 <= k < |rs| ==> rs[k] == rs[1..][k - 1];
      if Substantive(rs[0].reply) then rs[0].reply.errors + tail else tail
  }

  /** The first error of each reply that has errors, in merge order. */
  function FirstErrors(rs: seq<Indexed>): (es: seq<Error>)
    ensures |es| <= |rs|
    ensures forall e :: e in es <==> exists k :: 0 <= k < |rs| && |rs[k].reply.errors| > 0 && e == rs[k].reply.errors[0]
  {
    if rs == [] then []
    else
      var tail := FirstErrors(rs[1..]);
      assert forall k :: 1 <= k < |rs| ==> rs[k] == rs[1..][k - 1];
      if |rs[0].reply.errors| > 0 then [rs[0].reply.errors[0]] + tail else tail
  }

  /** Position of the first clean reply, if any. */
  function FirstClean(rs: seq<Indexed>): (k: Option<nat>)
    ensures k.Some? ==> k.value < |rs| && Clean(rs[k.value].reply)
    ensures k.Some? ==> forall j :: 0 <= j < k.value ==> !Clean(rs[j].reply)
    ensures k.None? ==> forall j :: 0 <= j < |rs| ==> !Clean(rs[j].reply)
  {
    if rs == [] then None
    else if Clean(rs[0].reply) then Some(0)
    else
      match FirstClean(rs[1..])
      case None => None
      case Some(k) => Some(k + 1)
  }

  /** Position of the first clean reply that found its document, if any. */
  function FirstCleanFound(rs: seq<Indexed>): (k: Option<nat>)
    ensures k.Some? ==> k.value < |rs| && Clean(rs[k.value].reply) && Found(rs[k.value].reply)
    ensures k.Some? ==> forall j :: 0 <= j < k.value ==> !(Clean(rs[j].reply) && Found(rs[j].reply))
    ensures k.None? ==> forall j :: 0 <= j < |rs| ==> !(Clean(rs[j].reply) && Found(rs[j].reply))
  {
    if rs == [] then None
    else if Clean(rs[0].reply) && Found(rs[0].reply) then Some(0)
    else
      match FirstCleanFound(rs[1..])
      case None => None
      case Some(k) => Some(k + 1)
  }

  /**
   * Every reply is clean and all are of one found-aware kind: all remove/update
   * replies, or all get replies. Only then does "found" decide the answer.
   */
  predicate CleanOfOneKind(rs: seq<Indexed>) {
    (forall k :: 0 <= k < |rs| ==> Clean(rs[k].reply)) &&
    ((forall k :: 0 <= k < |rs| ==> rs[k].reply.kind.FoundAware?) ||
     (forall k :: 0 <= k < |rs| ==> rs[k].reply.kind.Get?))
  }

  /**
   * The clean reply picked as the answer: the first clean one, except that among
   * clean replies of one kind the first that found something is preferred.
   */
  function SelectClean(rs: seq<Indexed>): Option<nat> {
    var found := FirstCleanFound(rs);
    if CleanOfOneKind(rs) && found.Some? then found else FirstClean(rs)
  }

  /**
   * The outcome of `mergedReply()` over the replies merged so far:
   * substantive errors win, then a clean reply, then the ignored errors;
   * with no replies at all the ignored branch yields a fresh error-free reply.
   */
  function Resolve(rs: seq<Indexed>): MergeResult {
    if AnySubstantive(rs) then
      MergeResult(None, Reply(SubstantiveErrors(rs), Generic))
    else
      match SelectClean(rs)
      case Some(k) => MergeResult(Some(rs[k].index), rs[k].reply)
      case None => MergeResult(None, Reply(FirstErrors(rs), Generic))
  }

  // ---------------------------------------------------------------------
  // The merger object

  class ReplyMerger {
    /** Every reply given to `Merge`, in call order (not sorted by index). */
    var replies: seq<Indexed>

    /** `new ReplyMerger()`: nothing merged yet. */
    constructor ()
      ensures replies == []
    {
      replies := [];
    }

    /** `merge(index, reply)`: records one more replica reply. */
    method Merge(index: int, reply: Reply)
      modifies this
      ensures replies == old(replies) + [Indexed(index, reply)]
    {
      replies := replies + [Indexed(index, reply)];
    }

    /** `mergedReply()`: the merged outcome of everything recorded. */
    function MergedReply(): MergeResult
      reads this
    {
      Resolve(replies)
    }
  }

  // ---------------------------------------------------------------------
  // Properties of the merged outcome

  /** No replies: a fresh reply without errors and no index. */
  lemma ResolveEmpty()
    ensures Resolve([]) == MergeResult(None, EmptyReply)
  {
  }

  /** The index is present exactly when the outcome is one of the inputs, verbatim and clean. */
  lemma ResolveIndexMeansInput(rs: seq<Indexed>)
    ensures Resolve(rs).index.Some? <==> (!AnySubstantive(rs) && exists k :: 0 <= k < |rs| && Clean(rs[k].reply))
    ensures Resolve(rs).index.Some? ==>
      exists k :: 0 <= k < |rs| && rs[k] == Indexed(Resolve(rs).index.value, Resolve(rs).reply) && Clean(rs[k].reply)
    ensures Resolve(rs).index.None? ==> Resolve(rs).reply.kind == Generic
  {
    var sel := SelectClean(rs);
    if !AnySubstantive(rs) && sel.None? {
      assert FirstClean(rs).None?;
    }
    if !AnySubstantive(rs) && sel.Some? {
      assert rs[sel.value] == Indexed(Resolve(rs).index.value, Resolve(rs).reply);
    }
  }

  /** Once any reply has a substantive error, the outcome is fresh and holds exactly the errors of those replies. */
  lemma ResolveSubstantive(rs: seq<Indexed>)
    requires AnySubstantive(rs)
    ensures Resolve(rs).index == None
    ensures Resolve(rs).reply == Reply(SubstantiveErrors(rs), Generic)
    ensures forall e :: e in Resolve(rs).reply.errors <==>
      exists k :: 0 <= k < |rs| && Substantive(rs[k].reply) && e in rs[k].reply.errors
  {
  }

  /** Merging one more reply appends all of its errors when it has a substantive one, and nothing otherwise. */
  lemma {:induction false} SubstantiveErrorsAppend(rs: seq<Indexed>, x: Indexed)
    ensures SubstantiveErrors(rs + [x]) ==
      SubstantiveErrors(rs) + (if Substantive(x.reply) then x.reply.errors else [])
  {
    if rs != [] {
      assert (rs + [x])[1..] == rs[1..] + [x];
      SubstantiveErrorsAppend(rs[1..], x);
    }
  }

  /** Merging one more reply that has errors appends its first error to the list of first errors. */
  lemma {:induction false} FirstErrorsAppend(rs: seq<Indexed>, x: Indexed)
    ensures FirstErrors(rs + [x]) ==
      FirstErrors(rs) + (if |x.reply.errors| > 0 then [x.reply.errors[0]] else [])
  {
    if rs != [] {
      assert (rs + [x])[1..] == rs[1..] + [x];
      FirstErrorsAppend(rs[1..], x);
    }
  }

  /** The substantive error list of a single reply is its whole error list when it has a substantive error. */
  lemma SubstantiveErrorsSingle(x: Indexed)
    ensures SubstantiveErrors([x]) == if Substantive(x.reply) then x.reply.errors else []
  {
    assert [x][1..] == [];
  }

  /** When every reply has errors, the first-error list holds exactly one error per reply, in merge order. */
  lemma {:induction false} FirstErrorsAllNonClean(rs: seq<Indexed>)
    requires forall k :: 0 <= k < |rs| ==> |rs[k].reply.errors| > 0
    ensures |FirstErrors(rs)| == |rs|
    ensures forall k :: 0 <= k < |rs| ==> FirstErrors(rs)[k] == rs[k].reply.errors[0]
  {
    if rs != [] {
      FirstErrorsAllNonClean(rs[1..]);
    }
  }

  /** All replies have only ignored errors: a fresh reply holding the first ignored error of each, in merge order. */
  lemma ResolveAllIgnored(rs: seq<Indexed>)
    requires forall k :: 0 <= k < |rs| ==> OnlyIgnored(rs[k].reply)
    ensures Resolve(rs).index == None
    ensures Resolve(rs).reply.kind == Generic
    ensures |Resolve(rs).reply.errors| == |rs|
    ensures forall k :: 0 <= k < |rs| ==>
      OnlyIgnored(rs[k].reply) && Resolve(rs).reply.errors[k] == rs[k].reply.errors[0]
  {
    assert !AnySubstantive(rs);
    assert FirstClean(rs).None? && FirstCleanFound(rs).None?;
    FirstErrorsAllNonClean(rs);
  }

  /** Without substantive errors, a clean reply beats ignored ones: it is returned with its index and no errors. */
  lemma ResolveCleanWins(rs: seq<Indexed>, c: nat)
    requires !AnySubstantive(rs)
    requires c < |rs| && Clean(rs[c].reply)
    ensures Resolve(rs).index.Some? && Resolve(rs).reply.errors == []
    ensures exists k :: 0 <= k < |rs| && Clean(rs[k].reply) && Resolve(rs) == MergeResult(Some(rs[k].index), rs[k].reply)
  {
    var sel := SelectClean(rs);
    assert FirstClean(rs).Some?;
    assert Resolve(rs) == MergeResult(Some(rs[sel.value].index), rs[sel.value].reply);
  }

  /**
   * Without substantive errors, the first clean reply is the outcome whenever "found"
   * cannot decide: the replies are not all clean and of one kind (for instance a clean
   * reply beside ignored-only ones, or clean replies of different kinds), or none found anything.
   */
  lemma ResolveFirstClean(rs: seq<Indexed>, c: nat)
    requires !AnySubstantive(rs)
    requires c < |rs| && Clean(rs[c].reply)
    requires !CleanOfOneKind(rs) || forall j :: 0 <= j < |rs| ==> !Found(rs[j].reply)
    ensures FirstClean(rs).Some? && FirstClean(rs).value <= c
    ensures Resolve(rs) == MergeResult(Some(rs[FirstClean(rs).value].index), rs[FirstClean(rs).value].reply)
  {
    if CleanOfOneKind(rs) {
      assert FirstCleanFound(rs).None?;
    }
  }

  /** Generic replies all clean: the first merged reply, with its own index. */
  lemma ResolveAllCleanGeneric(rs: seq<Indexed>)
    requires |rs| > 0
    requires forall k :: 0 <= k < |rs| ==> Clean(rs[k].reply) && rs[k].reply.kind == Generic
    ensures Resolve(rs) == MergeResult(Some(rs[0].index), rs[0].reply)
  {
    ResolveFirstClean(rs, 0);
  }

  /**
   * Clean replies of one kind, some of which found their document (remove/update with
   * wasFound, get with a last-modified time): the first that found it, with its index.
   */
  lemma ResolveOneKindFound(rs: seq<Indexed>, f: nat)
    requires CleanOfOneKind(rs)
    requires f < |rs| && Found(rs[f].reply)
    ensures exists k ::
      && 0 <= k <= f && Found(rs[k].reply)
      && (forall j :: 0 <= j < k ==> !Found(rs[j].reply))
      && Resolve(rs) == MergeResult(Some(rs[k].index), rs[k].reply)
  {
    assert !AnySubstantive(rs);
    assert FirstCleanFound(rs).Some?;
  }

  /** Clean replies of one kind, none of which found its document: the first reply, with its index. */
  lemma ResolveOneKindNoneFound(rs: seq<Indexed>)
    requires |rs| > 0 && CleanOfOneKind(rs)
    requires forall k :: 0 <= k < |rs| ==> !Found(rs[k].reply)
    ensures Resolve(rs) == MergeResult(Some(rs[0].index), rs[0].reply)
  {
    ResolveFirstClean(rs, 0);
  }
}
