/** GradPromUtils.ts: keeping the rows of one workspace progress status. */
module GradProm {
  import opened Seqs
  import opened Rows

  datatype Status = Graduated | Promoted | NotCompleted

  /** The column value of each status. */
  function StatusText(s: Status): string
  {
    match s
    case Graduated => "GRADUATED"
    case Promoted => "PROMOTED"
    case NotCompleted => "NOT_COMPLETED"
  }

  /** The `promOrGrad` argument: a status, or `null` for no filtering. */
  datatype StatusChoice = AnyStatus | OnlyStatus(status: Status)

  /** The rows with the given status text. */
  function HasStatus(text: string): Row -> bool
  {
    (r: Row) => r.progressStatus == text
  }

  function FilterPromGrad(data: seq<Row>, promOrGrad: StatusChoice): (r: seq<Row>)
    ensures promOrGrad == AnyStatus ==> r == data
    ensures promOrGrad.OnlyStatus? ==> forall x :: x in r ==> x.progressStatus == StatusText(promOrGrad.status)
  {
    if promOrGrad.OnlyStatus? then Filter(HasStatus(StatusText(promOrGrad.status)), data) else data
  }

  /** The number of rows with the status text. */
  function CountStatus(data: seq<Row>, text: string): nat
  {
    if data == [] then 0
    else CountStatus(data[..|data| - 1], text) + if data[|data| - 1].progressStatus == text then 1 else 0
  }

  /** The result keeps every row of the status, in order, and drops every
      other row. */
  lemma FilterPromGradKeeps(data: seq<Row>, status: Status)
    ensures IsSubseq(FilterPromGrad(data, OnlyStatus(status)), data)
    ensures forall x ::
      multiset(FilterPromGrad(data, OnlyStatus(status)))[x] ==
      (if x.progressStatus == StatusText(status) then multiset(data)[x] else 0)
  {
    var p := HasStatus(StatusText(status));
    FilterIsSubseq(p, data);
    FilterMultiset(p, data);
  }

  /** So no row of the status is lost: as many rows come out as have it. */
  lemma {:induction false} FilterPromGradCount(data: seq<Row>, status: Status)
    ensures |FilterPromGrad(data, OnlyStatus(status))| == CountStatus(data, StatusText(status))
  {
    if data != [] {
      var init := data[..|data| - 1];
      FilterPromGradCount(init, status);
      FilterSnoc(HasStatus(StatusText(status)), init, data[|data| - 1]);
      assert data == init + [data[|data| - 1]];
    }
  }
}
