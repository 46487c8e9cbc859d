/**
 * The two request handlers of backend/analyse.js: `/api/analyze` and
 * `/api/block-fraud`. The store file becomes a field of `TransactionStore`;
 * the call to the text-generation model is a function from the window it is
 * shown to its reply, and `JSON.parse` of the reply is a function that may fail.
 */
module Handlers {
  import Js
  import opened Wrappers
  import opened Transactions

  /** The window size used when `limit` is missing, zero, negative or not a number. */
  const DefaultLimit := 20

  const AnalyzeError := "Failed to analyze transactions"
  const BlockError := "Failed to block fraudulent transactions"

  /**
   * The window size: the coerced parameter, replaced by the default when it
   * is falsy, and again when it is NaN or not positive. The result is always
   * positive: a positive parameter is kept, anything else becomes the default.
   */
  function ResolveLimit(param: Js.Number): (limit: int)
    ensures limit > 0
    ensures param.Finite? && param.value > 0 ==> limit == param.value
    ensures param.NaN? || param.value <= 0 ==> limit == DefaultLimit
  {
    var n := Js.Or(param, Js.Finite(DefaultLimit));
    if n.NaN? || n.value <= 0 then DefaultLimit else n.value
  }

  /**
   * What the text-generation call gives back: a thrown error, a response
   * without text (its `text` is undefined, so trimming it throws), or the
   * reply's text.
   */
  datatype Reply = CallFailed | NoText | Answered(text: string)

  /** The JSON body of `/api/analyze`: status 200 with the count text, or status 500. */
  datatype AnalyzeResponse = FraudCount(fraudulentCount: string) | AnalyzeFailed(error: string)

  /** The JSON body of `/api/block-fraud`: status 200 with the summary, or status 500. */
  datatype BlockResponse<Id> =
    | BlockSummary(totalTransactions: nat, analyzedCount: nat, blockedCount: nat, blockedIds: seq<Id>)
    | BlockFailed(error: string)

  /** The persisted transaction list, read in full and rewritten in full. */
  class TransactionStore<Id(==), R> {
    var records: seq<Transaction<Id, R>>

    constructor (initial: seq<Transaction<Id, R>>)
      ensures records == initial
    {
      records := initial;
    }

    /**
     * `/api/analyze`: the model is shown exactly the trailing window of the
     * store, and its trimmed text is passed back unparsed. A failed call and
     * a reply without text both end in the error body. The store is only read.
     */
    method Analyze(limitParam: Js.Number, model: seq<Transaction<Id, R>> -> Reply)
      returns (response: AnalyzeResponse)
      ensures var window := Window(records, ResolveLimit(limitParam));
              match model(window)
              case CallFailed => response == AnalyzeFailed(AnalyzeError)
              case NoText => response == AnalyzeFailed(AnalyzeError)
              case Answered(text) => response == FraudCount(Js.Trim(text))
    {
      var limit := ResolveLimit(limitParam);
      var allTransactions := records;
      var transactions := Window(allTransactions, limit);
      var reply := model(transactions);
      match reply {
        case CallFailed =>
          response := AnalyzeFailed(AnalyzeError);
        case NoText =>
          response := AnalyzeFailed(AnalyzeError);
        case Answered(text) =>
          response := FraudCount(Js.Trim(text));
      }
    }

    /**
     * `/api/block-fraud`: the model is shown the trailing window; the ids it
     * returns (none when its reply has no text or does not parse) are marked
     * blocked across the WHOLE store, which is written back; the summary
     * reports the store size, the window size and the returned list as is.
     * A failed model call leaves the store untouched.
     */
    method BlockFraud(limitParam: Js.Number, model: seq<Transaction<Id, R>> -> Reply,
                      parse: string -> Option<seq<Id>>)
      returns (response: BlockResponse<Id>)
      modifies this
      ensures var window := Window(old(records), ResolveLimit(limitParam));
              match model(window)
              case CallFailed =>
                records == old(records) && response == BlockFailed(BlockError)
              case NoText =>
                records == old(records) && response == BlockSummary(|old(records)|, |window|, 0, [])
              case Answered(text) =>
                var ids := parse(Js.Trim(text)).GetOr([]);
                records == MarkBlocked(old(records), ids) &&
                response == BlockSummary(|old(records)|, |window|, |ids|, ids)
      ensures response.BlockSummary? ==>
                response.totalTransactions == |old(records)| &&
                response.analyzedCount == Js.Min(ResolveLimit(limitParam), |old(records)|) &&
                response.blockedCount == |response.blockedIds| &&
                |records| == |old(records)|
      ensures var reply := model(Window(old(records), ResolveLimit(limitParam)));
              reply.NoText? || (reply.Answered? && parse(Js.Trim(reply.text)).None?) ==>
                records == old(records) &&
                response.BlockSummary? && response.blockedCount == 0 && response.blockedIds == []
    {
      var limit := ResolveLimit(limitParam);
      var allTransactions := records;
      var transactionsToCheck := Window(allTransactions, limit);
      var reply := model(transactionsToCheck);
      if reply.CallFailed? {
        response := BlockFailed(BlockError);
        return;
      }
      var fraudulentIds: seq<Id> := [];
      if reply.Answered? {
        var parsed := parse(Js.Trim(reply.text));
        if parsed.Some? {
          fraudulentIds := parsed.value;
        }
      }
      var updatedTransactions := MarkBlocked(allTransactions, fraudulentIds);
      if fraudulentIds == [] {
        MarkBlockedNoIds(allTransactions);
      }
      records := updatedTransactions;
      response := BlockSummary(|allTransactions|, |transactionsToCheck|, |fraudulentIds|, fraudulentIds);
    }
  }
}
