/**
  The `GetHistory` use case: one page of at most ten history rows, each with
  its count of previous entries, plus the total number of matching rows.
*/
module GetHistoryUC {
  import opened Wrappers
  import opened BaseDal
  import opened HistoryOrder
  import opened FormHistoryDal

  /** The page size `execute` asks the DAL for. */
  const PageSize: nat := 10

  datatype GetHistoryRequest = GetHistoryRequest(dateFilter: Date, firstName: Option<string>, lastName: Option<string>)

  datatype HistoryItem = HistoryItem(date: Date, firstName: string, lastName: string, count: nat)

  datatype GetHistoryResponse = GetHistoryResponse(items: seq<HistoryItem>, total: nat)

  /** Item `a` may be listed before item `b` in history order. */
  predicate ItemPrecedes(a: HistoryItem, b: HistoryItem) {
    KeyPrecedes(a.date, a.firstName, a.lastName, b.date, b.firstName, b.lastName)
  }

  /** The item `execute` builds from one (row, count) pair. */
  function ItemOf(pair: (FormHistory, nat)): HistoryItem {
    HistoryItem(pair.0.date, pair.0.firstName, pair.0.lastName, pair.1)
  }

  class GetHistory {
    const dal: BaseDAL

    constructor (dal: BaseDAL)
      ensures this.dal == dal
    {
      this.dal := dal;
    }

    /** `execute`: the counted page, the total, and the items built pair by pair. */
    method Execute(request: GetHistoryRequest) returns (resp: GetHistoryResponse)
      ensures var pairs := GetFilteredHistoryWithCounts(dal.rows, request.dateFilter, request.firstName,
                                                        request.lastName, PageSize);
        |resp.items| == |pairs| && forall k :: 0 <= k < |pairs| ==> resp.items[k] == ItemOf(pairs[k])
      ensures resp.total == CountFilteredHistory(dal.rows, request.dateFilter, request.firstName, request.lastName)
      ensures |resp.items| <= PageSize && |resp.items| <= resp.total
      ensures forall k :: 0 <= k < |resp.items| ==>
        resp.items[k].date <= request.dateFilter &&
        NameMatches(request.firstName, resp.items[k].firstName) &&
        NameMatches(request.lastName, resp.items[k].lastName)
      ensures forall i, j :: 0 <= i < j < |resp.items| ==> ItemPrecedes(resp.items[i], resp.items[j])
      ensures forall k :: 0 <= k < |resp.items| ==>
        resp.items[k].count == CountPreviousEntries(dal.rows, resp.items[k].date, resp.items[k].firstName,
                                                    resp.items[k].lastName)
    {
      var recordsWithCounts := GetFilteredHistoryWithCounts(dal.rows, request.dateFilter, request.firstName,
                                                            request.lastName, PageSize);
      var total := CountFilteredHistory(dal.rows, request.dateFilter, request.firstName, request.lastName);
      ghost var page := GetFilteredHistory(dal.rows, request.dateFilter, request.firstName, request.lastName, PageSize);

      var items: seq<HistoryItem> := [];
      var i := 0;
      while i < |recordsWithCounts|
        invariant 0 <= i <= |recordsWithCounts|
        invariant |items| == i
        invariant forall k :: 0 <= k < i ==> items[k] == ItemOf(recordsWithCounts[k])
      {
        var (record, count) := recordsWithCounts[i];
        items := items + [HistoryItem(record.date, record.firstName, record.lastName, count)];
        i := i + 1;
      }
      resp := GetHistoryResponse(items, total);
      assert forall k :: 0 <= k < |items| ==> recordsWithCounts[k].0 == page[k];
    }
  }
}
