/** What the ledger keeps true across its operations, and how the
    operations relate to one another: borrowing and returning are inverse on
    stock, a transaction is returned at most once, identifiers are handed
    out consecutively, and the pair lookup of
    `return_resource_by_student_resource` is never ambiguous in a ledger the
    operations built.
 */
module LedgerProperties {
  import opened Wrappers
  import opened Text
  import opened Seqs
  import opened Calendar
  import opened Checks
  import opened SequenceIds
  import opened Resources
  import opened Ledger

  // ---------------------------------------------------------------------
  // The invariant
  // ---------------------------------------------------------------------

  predicate UniqueStudentIds(m: Manager) {
    forall i, j :: 0 <= i < j < |m.students| ==> m.students[i].studentId != m.students[j].studentId
  }

  predicate UniqueResourceIds(m: Manager) {
    forall i, j :: 0 <= i < j < |m.resources| ==> m.resources[i].resourceId != m.resources[j].resourceId
  }

  predicate UniqueTransactionIds(txs: seq<Transaction>) {
    forall i, j :: 0 <= i < j < |txs| ==> txs[i].transactionId != txs[j].transactionId
  }

  /** At most one outstanding loan per (student, resource) pair. */
  predicate OneLoanPerPair(txs: seq<Transaction>) {
    forall i, j :: 0 <= i < j < |txs| && txs[i].status == Borrowed && txs[j].status == Borrowed ==>
      txs[i].studentId != txs[j].studentId || txs[i].resourceId != txs[j].resourceId
  }

  /** A transaction carries a return date exactly when it is returned. */
  predicate DatedWhenReturned(txs: seq<Transaction>) {
    forall i :: 0 <= i < |txs| ==> (txs[i].returnDate.None? <==> txs[i].status == Borrowed)
  }

  predicate StockNonNegative(m: Manager) {
    forall i :: 0 <= i < |m.resources| ==> m.resources[i].quantity >= 0
  }

  /** The ids the ledger looks records up by are stored stripped and
      non-empty, so looking a stored id up again finds the same record. */
  predicate ResourceKeysStripped(m: Manager) {
    forall i :: 0 <= i < |m.resources| ==> m.resources[i].resourceId != [] && Trimmed(m.resources[i].resourceId)
  }

  predicate TransactionKeysStripped(txs: seq<Transaction>) {
    forall i :: 0 <= i < |txs| ==>
      && txs[i].transactionId != [] && Trimmed(txs[i].transactionId)
      && txs[i].resourceId != [] && Trimmed(txs[i].resourceId)
  }

  predicate WellFormed(m: Manager) {
    && UniqueStudentIds(m)
    && UniqueResourceIds(m)
    && UniqueTransactionIds(m.transactions)
    && OneLoanPerPair(m.transactions)
    && DatedWhenReturned(m.transactions)
    && StockNonNegative(m)
    && ResourceKeysStripped(m)
    && TransactionKeysStripped(m.transactions)
  }

  /** A fresh manager starts well formed. */
  lemma EmptyWellFormed()
    ensures WellFormed(EmptyManager)
  {
  }

  // ---------------------------------------------------------------------
  // Lookups that survive a change of stock or status
  // ---------------------------------------------------------------------

  /** Two resource lists with the same ids position by position answer every
      lookup the same way. */
  lemma SameResourceIds(m: Manager, m': Manager, id: string)
    requires |m'.resources| == |m.resources|
    requires forall j :: 0 <= j < |m.resources| ==> m'.resources[j].resourceId == m.resources[j].resourceId
    ensures HasResource(m', id) <==> HasResource(m, id)
    ensures HasResource(m, id) ==> ResourceAt(m', id) == ResourceAt(m, id)
  {
    if HasResource(m, id) {
      var k := ResourceAt(m, id);
      assert m'.resources[k].resourceId == id;
      assert FirstResource(m', id, k);
    }
  }

  /** The same for transaction lists. */
  lemma SameTransactionIds(m: Manager, m': Manager, id: string)
    requires |m'.transactions| == |m.transactions|
    requires forall j :: 0 <= j < |m.transactions| ==>
      m'.transactions[j].transactionId == m.transactions[j].transactionId
    ensures HasTransaction(m', id) <==> HasTransaction(m, id)
    ensures HasTransaction(m, id) ==> TransactionAt(m', id) == TransactionAt(m, id)
  {
    if HasTransaction(m, id) {
      var k := TransactionAt(m, id);
      assert m'.transactions[k].transactionId == id;
      assert FirstTransaction(m', id, k);
    }
  }

  /** In a list of distinct ids, the record found by an id is the one at any
      position holding that id. */
  lemma TransactionAtUnique(m: Manager, i: nat)
    requires UniqueTransactionIds(m.transactions) && i < |m.transactions|
    ensures HasTransaction(m, m.transactions[i].transactionId)
    ensures TransactionAt(m, m.transactions[i].transactionId) == i
  {
    var id := m.transactions[i].transactionId;
    assert m.transactions[i].transactionId == id;
    var k := TransactionAt(m, id);
    if k < i {
      assert m.transactions[k].transactionId == m.transactions[i].transactionId;
    }
  }

  // ---------------------------------------------------------------------
  // Every successful operation keeps the invariant
  // ---------------------------------------------------------------------

  lemma AddStudentKeepsWellFormed(m: Manager, studentId: string, name: string, email: string)
    requires WellFormed(m)
    requires AddStudent(m, studentId, name, email).Ok?
    ensures WellFormed(AddStudent(m, studentId, name, email).value)
  {
    var m' := AddStudent(m, studentId, name, email).value;
    var id := Trim(studentId);
    forall i, j | 0 <= i < j < |m'.students| ensures m'.students[i].studentId != m'.students[j].studentId {
      if j == |m.students| {
        assert m'.students[j].studentId == id;
        assert m'.students[i] == m.students[i];
      } else {
        assert m'.students[i] == m.students[i] && m'.students[j] == m.students[j];
      }
    }
  }

  lemma AddResourceKeepsWellFormed(m: Manager, resourceId: string, name: string, rtype: string, quantity: int)
    requires WellFormed(m)
    requires AddResource(m, resourceId, name, rtype, quantity).Ok?
    ensures WellFormed(AddResource(m, resourceId, name, rtype, quantity).value)
  {
    var m' := AddResource(m, resourceId, name, rtype, quantity).value;
    ResourceAppendedKeepsWellFormed(m, Resource(Trim(resourceId), Trim(name), Trim(rtype), quantity), m');
  }

  /** Appending a resource with a fresh, stripped, non-empty id and a
      non-negative count keeps the invariant. */
  lemma ResourceAppendedKeepsWellFormed(m: Manager, x: Resource, m': Manager)
    requires WellFormed(m) && !HasResource(m, x.resourceId)
    requires x.resourceId != [] && Trimmed(x.resourceId) && x.quantity >= 0
    requires m'.students == m.students && m'.transactions == m.transactions
    requires m'.resources == m.resources + [x]
    ensures WellFormed(m')
  {
    forall i, j | 0 <= i < j < |m'.resources| ensures m'.resources[i].resourceId != m'.resources[j].resourceId {
      assert m'.resources[i] == m.resources[i];
      if j < |m.resources| {
        assert m'.resources[j] == m.resources[j];
      }
    }
  }

  lemma UpdateKeepsWellFormed(m: Manager, resourceId: string, newQuantity: int)
    requires WellFormed(m)
    requires UpdateResourceQuantity(m, resourceId, newQuantity).Ok?
    ensures WellFormed(UpdateResourceQuantity(m, resourceId, newQuantity).value)
  {
    var m' := UpdateResourceQuantity(m, resourceId, newQuantity).value;
    SameKeysKeepWellFormed(m, m');
  }

  /** Replacing resources by ones with the same ids and non-negative counts,
      with students and transactions untouched, keeps the invariant. */
  lemma SameKeysKeepWellFormed(m: Manager, m': Manager)
    requires WellFormed(m) && StockNonNegative(m')
    requires m'.students == m.students && m'.transactions == m.transactions
    requires |m'.resources| == |m.resources|
    requires forall j :: 0 <= j < |m.resources| ==> m'.resources[j].resourceId == m.resources[j].resourceId
    ensures WellFormed(m')
  {
  }

  lemma RemoveKeepsWellFormed(m: Manager, resourceId: string)
    requires WellFormed(m)
    requires RemoveResource(m, resourceId).Ok?
    ensures WellFormed(RemoveResource(m, resourceId).value)
  {
    var id := Trim(resourceId);
    FilterDistinct(m.resources, (x: Resource) => x.resourceId != id, (x: Resource) => x.resourceId);
  }

  /** The remove operation as written keeps the invariant too: whatever id
      it filters by, it only drops resources. */
  lemma RemoveAsWrittenKeepsWellFormed(m: Manager, resourceId: string)
    requires WellFormed(m)
    requires RemoveResourceAsWritten(m, resourceId).Ok?
    ensures WellFormed(RemoveResourceAsWritten(m, resourceId).value)
  {
    var p := (x: Resource) => x.resourceId != resourceId;
    FilterDistinct(m.resources, p, (x: Resource) => x.resourceId);
    var rs := Filter(m.resources, p);
    forall i | 0 <= i < |rs| ensures rs[i].quantity >= 0 && rs[i].resourceId != [] && Trimmed(rs[i].resourceId) {
      assert rs[i] in m.resources;
    }
  }

  /** Moving one stock count keeps every resource id in place, so every
      lookup by id finds the same position. */
  lemma StockMovedKeepsIds(m: Manager, k: nat, delta: int, m': Manager, id: string)
    requires k < |m.resources| && StockMoved(m, k, delta, m')
    ensures forall j :: 0 <= j < |m.resources| ==> m'.resources[j].resourceId == m.resources[j].resourceId
    ensures HasResource(m', id) <==> HasResource(m, id)
    ensures HasResource(m, id) ==> ResourceAt(m', id) == ResourceAt(m, id)
  {
    assert forall j :: 0 <= j < |m.resources| ==> m'.resources[j].resourceId == m.resources[j].resourceId;
    SameResourceIds(m, m', id);
  }

  /** Moving one stock count keeps every resource id in place, and keeps
      the resource part of the invariant when the count stays >= 0. */
  lemma StockMovedKeepsResources(m: Manager, k: nat, delta: int, m': Manager)
    requires k < |m.resources| && StockMoved(m, k, delta, m')
    requires UniqueResourceIds(m) && StockNonNegative(m) && ResourceKeysStripped(m)
    requires m.resources[k].quantity + delta >= 0
    ensures forall j :: 0 <= j < |m.resources| ==> m'.resources[j].resourceId == m.resources[j].resourceId
    ensures UniqueResourceIds(m') && StockNonNegative(m') && ResourceKeysStripped(m')
  {
    assert forall j :: 0 <= j < |m.resources| ==> m'.resources[j].resourceId == m.resources[j].resourceId;
  }

  /** Appending an outstanding loan with a fresh, stripped id for a pair
      that had none keeps the transaction part of the invariant. */
  lemma RecordedKeepsTransactions(m: Manager, sid: string, rid: string, borrowDate: string,
                                  m': Manager, tx: Transaction)
    requires UniqueTransactionIds(m.transactions) && OneLoanPerPair(m.transactions)
    requires DatedWhenReturned(m.transactions) && TransactionKeysStripped(m.transactions)
    requires !HasActiveLoan(m.transactions, sid, rid) && rid != [] && Trimmed(rid)
    requires LoanRecorded(m, sid, rid, borrowDate, m', tx)
    ensures UniqueTransactionIds(m'.transactions) && OneLoanPerPair(m'.transactions)
    ensures DatedWhenReturned(m'.transactions) && TransactionKeysStripped(m'.transactions)
  {
    SeqIdTrimmed('T', tx.transactionId);
    var n := |m.transactions|;
    var txs := m'.transactions;
    assert txs[n] == tx;
    forall i | 0 <= i < n
      ensures txs[i] == m.transactions[i]
      ensures txs[i].transactionId != tx.transactionId
      ensures !OnLoan(txs[i], sid, rid)
    {
      assert !OnLoan(m.transactions[i], sid, rid);
    }
  }

  /** Marking one outstanding loan returned keeps the transaction part of
      the invariant. */
  lemma ClosedKeepsTransactions(txs: seq<Transaction>, i: nat, returnDate: string, txs': seq<Transaction>)
    requires i < |txs| && txs' == txs[i := txs[i].(returnDate := Some(returnDate), status := Returned)]
    requires UniqueTransactionIds(txs) && OneLoanPerPair(txs) && DatedWhenReturned(txs) && TransactionKeysStripped(txs)
    ensures UniqueTransactionIds(txs') && OneLoanPerPair(txs') && DatedWhenReturned(txs') && TransactionKeysStripped(txs')
    ensures forall j :: 0 <= j < |txs| ==> txs'[j].transactionId == txs[j].transactionId
  {
    assert forall j :: 0 <= j < |txs| && j != i ==> txs'[j] == txs[j];
  }

  /** The state change of a borrow keeps the invariant when the loan was
      allowed. */
  lemma LoanKeepsWellFormed(cfg: Config, m: Manager, sid: string, rid: string, borrowDate: string,
                            m': Manager, tx: Transaction)
    requires WellFormed(m)
    requires MayBorrow(m, sid, rid) && rid != [] && Trimmed(rid)
    requires LoanMade(cfg, m, sid, rid, borrowDate, m', tx)
    ensures WellFormed(m')
  {
    StockMovedKeepsResources(m, ResourceAt(m, rid), -1, m');
    RecordedKeepsTransactions(m, sid, rid, borrowDate, m', tx);
  }

  lemma BorrowKeepsWellFormed(cfg: Config, m: Manager, studentId: string, resourceId: string, borrowDate: string)
    requires WellFormed(m)
    requires BorrowResource(cfg, m, studentId, resourceId, borrowDate).Ok?
    ensures WellFormed(BorrowResource(cfg, m, studentId, resourceId, borrowDate).value.0)
  {
    var (m', tx) := BorrowResource(cfg, m, studentId, resourceId, borrowDate).value;
    LoanKeepsWellFormed(cfg, m, Trim(studentId), Trim(resourceId), Trim(borrowDate), m', tx);
  }

  /** The state change of a return keeps the invariant. */
  lemma ClosingKeepsWellFormed(m: Manager, i: nat, k: nat, returnDate: string, m': Manager, tx': Transaction)
    requires WellFormed(m)
    requires i < |m.transactions| && k < |m.resources|
    requires LoanClosed(m, i, k, returnDate, m', tx')
    ensures WellFormed(m')
  {
    StockMovedKeepsResources(m, k, 1, m');
    ClosedKeepsTransactions(m.transactions, i, returnDate, m'.transactions);
  }

  lemma ReturnKeepsWellFormed(m: Manager, transactionId: string, returnDate: string)
    requires WellFormed(m)
    requires ReturnResource(m, transactionId, returnDate).Ok?
    ensures WellFormed(ReturnResource(m, transactionId, returnDate).value.0)
  {
    var (m', tx') := ReturnResource(m, transactionId, returnDate).value;
    var i := TransactionAt(m, Trim(transactionId));
    ClosingKeepsWellFormed(m, i, ResourceAt(m, Trim(m.transactions[i].resourceId)), Trim(returnDate), m', tx');
  }

  /** The pair form returns through `return_resource`, so it keeps the
      invariant too. */
  lemma ReturnByPairKeepsWellFormed(m: Manager, studentId: string, resourceId: string, returnDate: string)
    requires WellFormed(m)
    requires ReturnByStudentResource(m, studentId, resourceId, returnDate).Ok?
    ensures WellFormed(ReturnByStudentResource(m, studentId, resourceId, returnDate).value.0)
  {
    var sid, rid := Trim(studentId), Trim(resourceId);
    var k := LoanAt(m.transactions, sid, rid);
    ReturnKeepsWellFormed(m, m.transactions[k].transactionId, returnDate);
  }

  // ---------------------------------------------------------------------
  // How the operations relate
  // ---------------------------------------------------------------------

  /** In a well-formed ledger no pair has two outstanding loans. */
  lemma NoTwoLoans(m: Manager, studentId: string, resourceId: string)
    requires WellFormed(m)
    ensures !TwoLoans(m.transactions, studentId, resourceId)
  {
  }

  /** `return_resource_by_student_resource` never reports an ambiguous pair
      in a well-formed ledger, and the loan it returns is never already
      returned: it does not fail with ConflictError. */
  lemma ReturnByPairNeverConflicts(m: Manager, studentId: string, resourceId: string, returnDate: string)
    requires WellFormed(m)
    ensures ReturnByStudentResource(m, studentId, resourceId, returnDate) != Fail(ConflictError)
  {
    var sid, rid := Trim(studentId), Trim(resourceId);
    if !AllSpace(studentId) && !AllSpace(resourceId) && HasActiveLoan(m.transactions, sid, rid) {
      NoTwoLoans(m, sid, rid);
      OpenLoanReturnable(m, LoanAt(m.transactions, sid, rid), returnDate);
    }
  }

  /** Returning an outstanding transaction by its stored id is never a
      ConflictError when ids are distinct and stored stripped. */
  lemma OpenLoanReturnable(m: Manager, k: nat, returnDate: string)
    requires UniqueTransactionIds(m.transactions) && TransactionKeysStripped(m.transactions)
    requires k < |m.transactions| && m.transactions[k].status == Borrowed
    ensures ReturnResource(m, m.transactions[k].transactionId, returnDate) != Fail(ConflictError)
  {
    var tid := m.transactions[k].transactionId;
    TransactionAtUnique(m, k);
    assert Trim(tid) == tid && !AllSpace(tid);
    OpenNotConflict(m, tid, returnDate);
  }

  /** `return_resource` reports ConflictError only for a transaction that is
      not outstanding. */
  lemma OpenNotConflict(m: Manager, transactionId: string, returnDate: string)
    requires !AllSpace(transactionId) && HasTransaction(m, Trim(transactionId))
    requires m.transactions[TransactionAt(m, Trim(transactionId))].status == Borrowed
    ensures ReturnResource(m, transactionId, returnDate) != Fail(ConflictError)
  {
  }

  /** A transaction is returned at most once: returning it again is a
      ConflictError. */
  lemma ReturnTwiceConflicts(m: Manager, transactionId: string, firstDate: string, secondDate: string)
    requires ReturnResource(m, transactionId, firstDate).Ok?
    ensures ReturnResource(ReturnResource(m, transactionId, firstDate).value.0, transactionId, secondDate)
         == Fail(ConflictError)
  {
    var (m', tx') := ReturnResource(m, transactionId, firstDate).value;
    var id := Trim(transactionId);
    var i := TransactionAt(m, id);
    var k := ResourceAt(m, Trim(m.transactions[i].resourceId));
    ClosedFoundReturned(m, i, k, Trim(firstDate), m', tx', id);
  }

  /** After a loan is closed, looking its id up again finds the same,
      now returned, transaction. */
  lemma ClosedFoundReturned(m: Manager, i: nat, k: nat, returnDate: string, m': Manager, tx': Transaction, id: string)
    requires HasTransaction(m, id) && i == TransactionAt(m, id) && k < |m.resources|
    requires LoanClosed(m, i, k, returnDate, m', tx')
    ensures HasTransaction(m', id) && TransactionAt(m', id) == i
    ensures m'.transactions[i].status == Returned
  {
    assert forall j :: 0 <= j < |m.transactions| ==>
      m'.transactions[j].transactionId == m.transactions[j].transactionId;
    SameTransactionIds(m, m', id);
  }

  /** Borrowing the same resource again while the first loan is outstanding
      is a ConflictError. */
  lemma BorrowTwiceConflicts(cfg: Config, m: Manager, studentId: string, resourceId: string,
                             firstDate: string, secondDate: string)
    requires BorrowResource(cfg, m, studentId, resourceId, firstDate).Ok?
    ensures BorrowResource(cfg, BorrowResource(cfg, m, studentId, resourceId, firstDate).value.0,
                           studentId, resourceId, secondDate) == Fail(ConflictError)
  {
    var (m', tx) := BorrowResource(cfg, m, studentId, resourceId, firstDate).value;
    var sid, rid := Trim(studentId), Trim(resourceId);
    assert MayBorrow(m, sid, rid);
    StockMovedKeepsIds(m, ResourceAt(m, rid), -1, m', rid);
    assert m'.students == m.students;
    assert m'.transactions[|m.transactions|] == tx;
    assert HasActiveLoan(m'.transactions, sid, rid);
  }

  /** The transaction a borrow appended is found again by its id, at the
      end of the ledger, and its resource at the position it was taken
      from. */
  lemma FreshLoanFound(m: Manager, sid: string, rid: string, borrowDate: string,
                       m': Manager, tx: Transaction)
    requires HasResource(m, rid) && rid != [] && Trimmed(rid)
    requires LoanRecorded(m, sid, rid, borrowDate, m', tx)
    requires StockMoved(m, ResourceAt(m, rid), -1, m')
    ensures Trimmed(tx.transactionId) && !AllSpace(tx.transactionId)
    ensures HasTransaction(m', tx.transactionId) && TransactionAt(m', tx.transactionId) == |m.transactions|
    ensures m'.transactions[|m.transactions|] == tx
    ensures HasResource(m', rid) && ResourceAt(m', rid) == ResourceAt(m, rid)
  {
    SeqIdTrimmed('T', tx.transactionId);
    var n := |m.transactions|;
    assert m'.transactions[n] == tx;
    assert FirstTransaction(m', tx.transactionId, n);
    StockMovedKeepsIds(m, ResourceAt(m, rid), -1, m', rid);
  }

  /** Closing the loan a borrow opened puts the stock back. */
  lemma LoanThenCloseRestores(m: Manager, k: nat, m1: Manager, tx: Transaction,
                              returnDate: string, m2: Manager, tx2: Transaction)
    requires k < |m.resources| && StockMoved(m, k, -1, m1) && m1.students == m.students
    requires m1.transactions == m.transactions + [tx]
    requires LoanClosed(m1, |m.transactions|, k, returnDate, m2, tx2)
    ensures m2.resources == m.resources && m2.students == m.students
    ensures m2.transactions == m.transactions + [tx.(returnDate := Some(returnDate), status := Returned)]
  {
    var n := |m.transactions|;
    assert m1.transactions[n] == tx;
    forall j | 0 <= j < |m.resources| ensures m2.resources[j] == m.resources[j] {
    }
  }

  /** Returning the transaction a borrow created puts the stock back: the
      resources are as before the borrow, and the ledger keeps the loan as a
      returned record. */
  lemma BorrowThenReturnRestoresStock(cfg: Config, m: Manager, studentId: string, resourceId: string,
                                      borrowDate: string, returnDate: string)
    requires BorrowResource(cfg, m, studentId, resourceId, borrowDate).Ok?
    requires ParseDate(Trim(returnDate)).Ok?
    ensures var (m', tx) := BorrowResource(cfg, m, studentId, resourceId, borrowDate).value;
      && ReturnResource(m', tx.transactionId, returnDate).Ok?
      && var m'' := ReturnResource(m', tx.transactionId, returnDate).value.0;
      && m''.resources == m.resources
      && m''.students == m.students
      && m''.transactions == m.transactions + [tx.(returnDate := Some(Trim(returnDate)), status := Returned)]
  {
    var (m', tx) := BorrowResource(cfg, m, studentId, resourceId, borrowDate).value;
    var rid := Trim(resourceId);
    FreshLoanFound(m, Trim(studentId), rid, Trim(borrowDate), m', tx);
    var (m'', tx'') := ReturnResource(m', tx.transactionId, returnDate).value;
    LoanThenCloseRestores(m, ResourceAt(m, rid), m', tx, Trim(returnDate), m'', tx'');
  }

  /** A loan just made is overdue on a given day exactly when that day is
      more than the loan period after the borrow date. */
  lemma FreshLoanOverdueIff(cfg: Config, m: Manager, studentId: string, resourceId: string,
                            borrowDate: string, currentDate: string)
    requires BorrowResource(cfg, m, studentId, resourceId, borrowDate).Ok?
    requires ParseDate(currentDate).Ok?
    ensures var tx := BorrowResource(cfg, m, studentId, resourceId, borrowDate).value.1;
      IsOverdue(tx, currentDate)
        == Ok(Ordinal(ParseDate(currentDate).value) > Ordinal(ParseDate(Trim(borrowDate)).value) + cfg.dueDays)
  {
  }

  /** On its due date a loan is not yet overdue. */
  lemma DueDayNotOverdue(tx: Transaction)
    requires tx.status == Borrowed && ParseDate(tx.dueDate).Ok?
    ensures IsOverdue(tx, tx.dueDate) == Ok(false)
  {
  }

  /** A returned loan is never overdue. */
  lemma ReturnedNeverOverdue(m: Manager, transactionId: string, returnDate: string, currentDate: string)
    requires ReturnResource(m, transactionId, returnDate).Ok?
    ensures IsOverdue(ReturnResource(m, transactionId, returnDate).value.1, currentDate) == Ok(false)
  {
  }

  /** Each borrow takes the next transaction number: the identifier after
      it is one higher. */
  lemma BorrowAdvancesTransactionId(cfg: Config, m: Manager, studentId: string, resourceId: string, borrowDate: string)
    requires BorrowResource(cfg, m, studentId, resourceId, borrowDate).Ok?
    ensures var (m', tx) := BorrowResource(cfg, m, studentId, resourceId, borrowDate).value;
      && tx.transactionId == NextTransactionId(m)
      && SeqNum('T', NextTransactionId(m')) == SeqNum('T', tx.transactionId) + 1
  {
    var (m', tx) := BorrowResource(cfg, m, studentId, resourceId, borrowDate).value;
    TransactionIdsSnoc(m.transactions, tx);
    NextIdConsecutive('T', TransactionIds(m.transactions));
  }

  lemma TransactionIdsSnoc(txs: seq<Transaction>, tx: Transaction)
    ensures TransactionIds(txs + [tx]) == TransactionIds(txs) + [tx.transactionId]
  {
  }

  // ---------------------------------------------------------------------
  // remove_resource as written
  // ---------------------------------------------------------------------

  /** The source's `remove_resource` with a padded id: the lookup strips the
      padding and finds the resource, but the loan check and the filter use
      the padded id, match nothing, and the call succeeds without removing
      anything, even though the resource is on loan. With the stripped id
      used throughout the same call is a ConflictError. */
  lemma RemovePaddedIdSlipsThrough(m: Manager, id: string)
    requires WellFormed(m)
    requires id != [] && Trimmed(id)
    requires HasResource(m, id) && ResourceOnLoan(m.transactions, id)
    ensures RemoveResourceAsWritten(m, [' '] + id) == Ok(m)
    ensures RemoveResource(m, [' '] + id) == Fail(ConflictError)
  {
    var padded := [' '] + id;
    TrimLeadingSpace(id);
    assert !AllSpace(padded) && !Trimmed(padded) by {
      assert padded[1..] == id;
    }
    UnstrippedKeyMatchesNothing(m, padded);
  }

  /** In a ledger whose keys are stored stripped, an unstripped key names no
      loan and no resource. */
  lemma UnstrippedKeyMatchesNothing(m: Manager, key: string)
    requires ResourceKeysStripped(m) && TransactionKeysStripped(m.transactions) && !Trimmed(key)
    ensures !ResourceOnLoan(m.transactions, key)
    ensures Filter(m.resources, (x: Resource) => x.resourceId != key) == m.resources
  {
    forall i | 0 <= i < |m.transactions| ensures m.transactions[i].resourceId != key {
      assert Trimmed(m.transactions[i].resourceId);
    }
    forall j | 0 <= j < |m.resources| ensures m.resources[j].resourceId != key {
      assert Trimmed(m.resources[j].resourceId);
    }
  }

  /** A concrete ledger showing it: resource "R1" on loan to "S001", removed
      as " R1". */
  lemma RemovePaddedIdExample()
    ensures var m := Manager(
              [Student("S001", "Ada", "ada@alustudent.com")],
              [Resource("R1", "Laptop", "Device", 0)],
              [Transaction("T001", "S001", "R1", "2024-01-01", "2024-01-04", None, Borrowed)]);
      && RemoveResourceAsWritten(m, " R1") == Ok(m)
      && RemoveResource(m, " R1") == Fail(ConflictError)
  {
    var m := Manager(
      [Student("S001", "Ada", "ada@alustudent.com")],
      [Resource("R1", "Laptop", "Device", 0)],
      [Transaction("T001", "S001", "R1", "2024-01-01", "2024-01-04", None, Borrowed)]);
    assert m.resources[0].resourceId == "R1";
    assert m.transactions[0].status == Borrowed && m.transactions[0].resourceId == "R1";
    assert " R1" == [' '] + "R1";
    RemovePaddedIdSlipsThrough(m, "R1");
  }
}
