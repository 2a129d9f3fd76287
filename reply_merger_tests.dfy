/**
 * The scenarios fixed by the merger's unit tests: each method builds a fresh
 * merger, merges the test's replies in the test's order and returns the
 * merged outcome; its postconditions are the test's assertions.
 * Returning a given input reply with its index stands for `sameInstance`;
 * a missing index stands for a fresh reply that is no input.
 */
module ReplyMergerTests {
  import opened Wrappers
  import opened ReplyMerging

  method GenericRepliesWithNoErrorsPickFirst() returns (ret: MergeResult)
    ensures ret == MergeResult(Some(0), EmptyReply)
  {
    var merger := new ReplyMerger();
    merger.Merge(0, EmptyReply);
    merger.Merge(1, EmptyReply);
    merger.Merge(2, EmptyReply);
    ret := merger.MergedReply();
    ResolveAllCleanGeneric(merger.replies);
  }

  method SingleReplyWithOneErrorGivesFreshReplyWithError() returns (ret: MergeResult)
    ensures ret.index == None
    ensures ret.reply.errors == [Error(1234, "oh no!")]
  {
    var merger := new ReplyMerger();
    var r1 := EmptyReply.AddError(Error(1234, "oh no!"));
    merger.Merge(0, r1);
    ret := merger.MergedReply();
    assert Substantive(r1) by { assert !IsIgnored(r1.errors[0]); }
    assert merger.replies == [Indexed(0, r1)];
    assert AnySubstantive(merger.replies) by { assert Substantive(merger.replies[0].reply); }
    SubstantiveErrorsSingle(Indexed(0, r1));
  }

  method SingleReplyWithMultipleErrorsGivesFreshReplyWithAllErrors() returns (ret: MergeResult)
    ensures ret.index == None
    ensures ret.reply.errors == [Error(1234, "oh no!"), Error(4567, "oh dear!")]
  {
    var merger := new ReplyMerger();
    var r1 := EmptyReply.AddError(Error(1234, "oh no!")).AddError(Error(4567, "oh dear!"));
    merger.Merge(0, r1);
    ret := merger.MergedReply();
    assert Substantive(r1) by { assert !IsIgnored(r1.errors[0]); }
    assert merger.replies == [Indexed(0, r1)];
    assert AnySubstantive(merger.replies) by { assert Substantive(merger.replies[0].reply); }
    SubstantiveErrorsSingle(Indexed(0, r1));
  }

  method MultipleRepliesWithMultipleErrorsGiveFreshReplyWithAllErrors() returns (ret: MergeResult)
    ensures ret.index == None
    ensures ret.reply.errors == [Error(1234, "oh no!"), Error(4567, "oh dear!"), Error(678, "omg!")]
  {
    var merger := new ReplyMerger();
    var r1 := EmptyReply.AddError(Error(1234, "oh no!")).AddError(Error(4567, "oh dear!"));
    var r2 := EmptyReply.AddError(Error(678, "omg!"));
    merger.Merge(0, r1);
    merger.Merge(1, r2);
    ret := merger.MergedReply();
    assert Substantive(r1) by { assert !IsIgnored(r1.errors[0]); }
    assert Substantive(r2) by { assert !IsIgnored(r2.errors[0]); }
    SubstantiveErrorsSingle(Indexed(0, r1));
    SubstantiveErrorsAppend([Indexed(0, r1)], Indexed(1, r2));
  }

  method IgnoredReplyWhenAllRepliesHaveOnlyIgnoredErrors() returns (ret: MergeResult)
    ensures ret.index == None
    ensures ret.reply.errors == [Error(ErrorMessageIgnored, "oh no!"), Error(ErrorMessageIgnored, "omg!")]
  {
    var merger := new ReplyMerger();
    var r1 := EmptyReply.AddError(Error(ErrorMessageIgnored, "oh no!")).AddError(Error(ErrorMessageIgnored, "oh dear!"));
    var r2 := EmptyReply.AddError(Error(ErrorMessageIgnored, "omg!"));
    merger.Merge(0, r1);
    merger.Merge(1, r2);
    ret := merger.MergedReply();
    ResolveAllIgnored(merger.replies);
  }

  method SuccessfulReplyTakesPrecedenceOverIgnoredReply() returns (ret: MergeResult)
    ensures ret == MergeResult(Some(1), EmptyReply)
    ensures ret.reply.errors == []
  {
    var merger := new ReplyMerger();
    var r1 := EmptyReply.AddError(Error(ErrorMessageIgnored, "oh no!"));
    merger.Merge(0, r1);
    merger.Merge(1, EmptyReply);
    ret := merger.MergedReply();
    assert !Substantive(r1);
    ResolveFirstClean(merger.replies, 1);
  }

  method NonIgnoredErrorTakesPrecedence() returns (ret: MergeResult)
    ensures ret.index == None
    ensures ret.reply.errors == [Error(ErrorMessageIgnored, "oh no!"), Error(ErrorAborted, "kablammo!")]
  {
    var merger := new ReplyMerger();
    var r1 := EmptyReply.AddError(Error(ErrorMessageIgnored, "oh no!")).AddError(Error(ErrorAborted, "kablammo!"));
    var r2 := EmptyReply.AddError(Error(ErrorMessageIgnored, "omg!"));
    merger.Merge(0, r1);
    merger.Merge(1, r2);
    ret := merger.MergedReply();
    assert Substantive(r1) by { assert !IsIgnored(r1.errors[1]); }
    assert !Substantive(r2);
    SubstantiveErrorsSingle(Indexed(0, r1));
    SubstantiveErrorsAppend([Indexed(0, r1)], Indexed(1, r2));
  }

  method RemoveDocumentReplyWhereDocWasFound() returns (ret: MergeResult)
    ensures ret == MergeResult(Some(1), Reply([], FoundAware(true)))
  {
    var merger := new ReplyMerger();
    merger.Merge(0, Reply([], FoundAware(false)));
    merger.Merge(1, Reply([], FoundAware(true)));
    merger.Merge(2, Reply([], FoundAware(false)));
    ret := merger.MergedReply();
    assert CleanOfOneKind(merger.replies) && Found(merger.replies[1].reply);
    ResolveOneKindFound(merger.replies, 1);
  }

  method FirstRemoveDocumentReplyIfNoDocsWereFound() returns (ret: MergeResult)
    ensures ret == MergeResult(Some(0), Reply([], FoundAware(false)))
  {
    var merger := new ReplyMerger();
    merger.Merge(0, Reply([], FoundAware(false)));
    merger.Merge(1, Reply([], FoundAware(false)));
    ret := merger.MergedReply();
    assert CleanOfOneKind(merger.replies);
    ResolveOneKindNoneFound(merger.replies);
  }

  method UpdateDocumentReplyWhereDocWasFound() returns (ret: MergeResult)
    ensures ret == MergeResult(Some(1), Reply([], FoundAware(true)))
  {
    var merger := new ReplyMerger();
    merger.Merge(0, Reply([], FoundAware(false)));
    merger.Merge(1, Reply([], FoundAware(true)));
    merger.Merge(2, Reply([], FoundAware(true)));
    ret := merger.MergedReply();
    assert CleanOfOneKind(merger.replies) && Found(merger.replies[1].reply);
    ResolveOneKindFound(merger.replies, 1);
  }

  method GetDocumentReplyWhereDocWasFound() returns (ret: MergeResult)
    ensures ret == MergeResult(Some(1), Reply([], Get(12345)))
  {
    var merger := new ReplyMerger();
    merger.Merge(0, Reply([], Get(0)));
    merger.Merge(1, Reply([], Get(12345)));
    merger.Merge(2, Reply([], Get(0)));
    ret := merger.MergedReply();
    assert CleanOfOneKind(merger.replies) && Found(merger.replies[1].reply);
    ResolveOneKindFound(merger.replies, 1);
  }

  method ZeroRepliesGiveDefaultEmptyReply() returns (ret: MergeResult)
    ensures ret.index == None
    ensures ret.reply == EmptyReply
  {
    var merger := new ReplyMerger();
    ret := merger.MergedReply();
    ResolveEmpty();
  }
}
