/**
 Whole runs of page operations: the bytes keep the layout, and the cells evolve as a map from
 slots to tuples would.
 */
module PageRuns {
  import opened SlottedPage
  import opened PageSteps
  import opened TablePages

  // Every operation from the n-th on is legal in the layout that it finds.
  ghost predicate LegalFrom(p: Page, ops: seq<PageOp>, n: nat)
    requires n <= |ops|
    decreases |ops| - n
  {
    n == |ops| || (Valid(p) ==> Legal(p, ops[n]) && LegalFrom(Step(p, ops[n]), ops, n + 1))
  }

  function ChangeFrom(cs: seq<Cell>, ops: seq<PageOp>, n: nat): seq<Cell>
    requires n <= |ops|
    decreases |ops| - n
  {
    if n == |ops| then cs else ChangeFrom(Change(cs, ops[n]), ops, n + 1)
  }

  method Perform(page: TablePage, op: PageOp)
    requires page.Valid() && Legal(page.page, op)
    modifies page, page.data
    ensures page.Valid() && page.page == Step(old(page.page), op) && page.Contents() == Change(old(page.Contents()), op)
  {
    StepChanges(page.page, op);
    match op
    case InsertOp(b) =>
      var ok, slot := page.InsertTuple(b);
    case MarkDeleteOp(k) =>
      var ok := page.MarkDelete(k);
    case RollbackDeleteOp(k) =>
      page.RollbackDelete(k);
    case UpdateOp(k, b) =>
      var ok, was := page.UpdateTuple(k, b);
    case ApplyDeleteOp(k) =>
      page.ApplyDelete(k);
  }

  // After any run of legal operations the tuples tile the page, and each slot holds what the run
  // left in it.
  method Run(page: TablePage, ops: seq<PageOp>)
    requires page.Valid() && LegalFrom(page.page, ops, 0)
    modifies page, page.data
    ensures page.Valid() && page.Contents() == ChangeFrom(old(page.Contents()), ops, 0)
  {
    ghost var start := page.Contents();
    for n := 0 to |ops|
      invariant page.Valid() && LegalFrom(page.page, ops, n)
      invariant ChangeFrom(page.Contents(), ops, n) == ChangeFrom(start, ops, 0)
    {
      Perform(page, ops[n]);
    }
  }
}
