/** `SystemManager`: the borrowing ledger. The manager state is three
    ordered lists (students, resources, transactions); every operation is a
    pure function from the state and its arguments to either the new state
    (and the operation's return value) or the exception the source raises.
    Every check in the source runs before any mutation, so a failing
    operation leaves the caller's state as it was: here it returns no new
    state at all. The `save_*` calls that follow each mutation write the
    same lists to storage and are not modelled.
 */
module Ledger {
  import opened Wrappers
  import opened Text
  import opened Seqs
  import opened Calendar
  import opened Checks
  import Roles
  import opened SequenceIds
  import opened Resources

  /** The stored `status` string: "borrowed" or "returned". */
  datatype Status = Borrowed | Returned

  datatype Student = Student(studentId: string, name: string, email: string)

  /** A borrowing record; dates are kept as the `YYYY-MM-DD` text stored. */
  datatype Transaction = Transaction(
    transactionId: string,
    studentId: string,
    resourceId: string,
    borrowDate: string,
    dueDate: string,
    returnDate: Option<string>,
    status: Status)

  datatype Manager = Manager(
    students: seq<Student>,
    resources: seq<Resource>,
    transactions: seq<Transaction>)

  /** The constructor's settings: the loan period and the role domains. */
  datatype Config = Config(dueDays: int, roles: Roles.RoleConfig)

  const DefaultConfig: Config := Config(3, Roles.DefaultRoles)

  const EmptyManager: Manager := Manager([], [], [])

  // ---------------------------------------------------------------------
  // What the scans look for, stated without the scans
  // ---------------------------------------------------------------------

  predicate HasStudent(m: Manager, id: string) {
    exists i :: 0 <= i < |m.students| && m.students[i].studentId == id
  }

  predicate HasResource(m: Manager, id: string) {
    exists i :: 0 <= i < |m.resources| && m.resources[i].resourceId == id
  }

  predicate HasTransaction(m: Manager, id: string) {
    exists i :: 0 <= i < |m.transactions| && m.transactions[i].transactionId == id
  }

  /** `t` is an outstanding loan of `resourceId` to `studentId`. */
  predicate OnLoan(t: Transaction, studentId: string, resourceId: string) {
    t.status == Borrowed && t.studentId == studentId && t.resourceId == resourceId
  }

  predicate HasActiveLoan(txs: seq<Transaction>, studentId: string, resourceId: string) {
    exists i :: 0 <= i < |txs| && OnLoan(txs[i], studentId, resourceId)
  }

  /** Two distinct outstanding loans of the same pair. */
  predicate TwoLoans(txs: seq<Transaction>, studentId: string, resourceId: string) {
    exists i, j :: 0 <= i < j < |txs| && OnLoan(txs[i], studentId, resourceId) && OnLoan(txs[j], studentId, resourceId)
  }

  predicate ResourceOnLoan(txs: seq<Transaction>, resourceId: string) {
    exists i :: 0 <= i < |txs| && txs[i].status == Borrowed && txs[i].resourceId == resourceId
  }

  /** `k` is the position of the first student with this id. */
  predicate FirstStudent(m: Manager, id: string, k: nat) {
    && k < |m.students| && m.students[k].studentId == id
    && forall j :: 0 <= j < k ==> m.students[j].studentId != id
  }

  predicate FirstResource(m: Manager, id: string, k: nat) {
    && k < |m.resources| && m.resources[k].resourceId == id
    && forall j :: 0 <= j < k ==> m.resources[j].resourceId != id
  }

  predicate FirstTransaction(m: Manager, id: string, k: nat) {
    && k < |m.transactions| && m.transactions[k].transactionId == id
    && forall j :: 0 <= j < k ==> m.transactions[j].transactionId != id
  }

  /** Position of the record a lookup returns (and a mutation changes). */
  function ResourceAt(m: Manager, id: string): (k: nat)
    requires HasResource(m, id)
    ensures FirstResource(m, id, k)
  {
    FirstIndex(m.resources, (r: Resource) => r.resourceId == id).value
  }

  function TransactionAt(m: Manager, id: string): (k: nat)
    requires HasTransaction(m, id)
    ensures FirstTransaction(m, id, k)
  {
    FirstIndex(m.transactions, (t: Transaction) => t.transactionId == id).value
  }

  /** Stock of the resource a lookup by `id` finds. */
  function Stock(m: Manager, id: string): int
    requires HasResource(m, id)
  {
    m.resources[ResourceAt(m, id)].quantity
  }

  // ---------------------------------------------------------------------
  // find_* and active_transactions_*
  // ---------------------------------------------------------------------

  /** The scan of `find_student` for an id that is already stripped. */
  function StudentIndex(m: Manager, id: string): (r: Option<nat>)
    ensures r.Some? <==> HasStudent(m, id)
    ensures r.Some? ==> FirstStudent(m, id, r.value)
  {
    FirstIndex(m.students, (s: Student) => s.studentId == id)
  }

  /** The scan of `find_resource` for an id that is already stripped. */
  function ResourceIndex(m: Manager, id: string): (r: Option<nat>)
    ensures r.Some? <==> HasResource(m, id)
    ensures r.Some? ==> r.value == ResourceAt(m, id)
  {
    FirstIndex(m.resources, (x: Resource) => x.resourceId == id)
  }

  /** `find_student`: the id is stripped and must be non-empty. */
  function FindStudent(m: Manager, studentId: string): (r: Result<Option<nat>>)
    ensures AllSpace(studentId) ==> r == Fail(ValidationError)
    ensures !AllSpace(studentId) ==> r.Ok? && (r.value.Some? <==> HasStudent(m, Trim(studentId)))
    ensures r.Ok? && r.value.Some? ==> FirstStudent(m, Trim(studentId), r.value.value)
  {
    var id :- RequireNonempty(studentId);
    Ok(StudentIndex(m, id))
  }

  /** `find_resource`. */
  function FindResource(m: Manager, resourceId: string): (r: Result<Option<nat>>)
    ensures AllSpace(resourceId) ==> r == Fail(ValidationError)
    ensures !AllSpace(resourceId) ==> r.Ok? && (r.value.Some? <==> HasResource(m, Trim(resourceId)))
    ensures r.Ok? && r.value.Some? ==> r.value.value == ResourceAt(m, Trim(resourceId))
  {
    var id :- RequireNonempty(resourceId);
    Ok(ResourceIndex(m, id))
  }

  /** `find_transaction`. */
  function FindTransaction(m: Manager, transactionId: string): (r: Result<Option<nat>>)
    ensures AllSpace(transactionId) ==> r == Fail(ValidationError)
    ensures !AllSpace(transactionId) ==> r.Ok? && (r.value.Some? <==> HasTransaction(m, Trim(transactionId)))
    ensures r.Ok? && r.value.Some? ==> r.value.value == TransactionAt(m, Trim(transactionId))
  {
    var id :- RequireNonempty(transactionId);
    Ok(FirstIndex(m.transactions, (t: Transaction) => t.transactionId == id))
  }

  /** `active_transactions_for_resource`: the outstanding loans of a
      resource, in ledger order. */
  function ActiveForResource(txs: seq<Transaction>, resourceId: string): (r: seq<Transaction>)
    ensures |r| > 0 <==> ResourceOnLoan(txs, resourceId)
    ensures forall i :: 0 <= i < |r| ==> r[i] in txs && r[i].status == Borrowed && r[i].resourceId == resourceId
    ensures forall t :: t in r <==> t in txs && t.status == Borrowed && t.resourceId == resourceId
  {
    Filter(txs, (t: Transaction) => t.resourceId == resourceId && t.status == Borrowed)
  }

  /** The open loans of a resource are listed in ledger order: a transaction
      appended to the ledger comes last, and only when it is an open loan of
      that resource. */
  lemma ActiveForResourceSnoc(txs: seq<Transaction>, t: Transaction, resourceId: string)
    ensures ActiveForResource(txs + [t], resourceId)
         == ActiveForResource(txs, resourceId) + (if t.status == Borrowed && t.resourceId == resourceId then [t] else [])
  {
    var p := (x: Transaction) => x.resourceId == resourceId && x.status == Borrowed;
    FilterAppend(txs, [t], p);
    assert Filter([t], p) == if p(t) then [t] else [] by {
      assert [t][1..] == [];
    }
  }

  /** `active_transactions_for_student_resource`. */
  function ActiveForPair(txs: seq<Transaction>, studentId: string, resourceId: string): (r: seq<Transaction>)
    ensures |r| > 0 <==> HasActiveLoan(txs, studentId, resourceId)
    ensures |r| >= 2 <==> TwoLoans(txs, studentId, resourceId)
    ensures forall i :: 0 <= i < |r| ==> r[i] in txs && OnLoan(r[i], studentId, resourceId)
    ensures forall t :: t in r <==> t in txs && OnLoan(t, studentId, resourceId)
  {
    var p := (t: Transaction) => OnLoan(t, studentId, resourceId);
    FilterTwoIff(txs, p);
    Filter(txs, p)
  }

  /** The open loans of a pair are listed in ledger order: a transaction
      appended to the ledger comes last, and only when it is an open loan of
      that pair. */
  lemma ActiveForPairSnoc(txs: seq<Transaction>, t: Transaction, studentId: string, resourceId: string)
    ensures ActiveForPair(txs + [t], studentId, resourceId)
         == ActiveForPair(txs, studentId, resourceId) + (if OnLoan(t, studentId, resourceId) then [t] else [])
  {
    var p := (x: Transaction) => OnLoan(x, studentId, resourceId);
    FilterAppend(txs, [t], p);
    assert Filter([t], p) == if p(t) then [t] else [] by {
      assert [t][1..] == [];
    }
  }

  // ---------------------------------------------------------------------
  // Identifiers
  // ---------------------------------------------------------------------

  function TransactionIds(txs: seq<Transaction>): (ids: seq<string>)
    ensures |ids| == |txs| && forall i :: 0 <= i < |txs| ==> ids[i] == txs[i].transactionId
  {
    seq(|txs|, i requires 0 <= i < |txs| => txs[i].transactionId)
  }

  /** `next_transaction_id`. */
  function NextTransactionId(m: Manager): (id: string)
    ensures IsSeqId('T', id) && |id| >= 4
    ensures |id| == 4 || id[1] != '0'
    ensures MaxSeqNum('T', TransactionIds(m.transactions)).None? ==> SeqNum('T', id) == 1
    ensures MaxSeqNum('T', TransactionIds(m.transactions)).Some? ==>
      SeqNum('T', id) == MaxSeqNum('T', TransactionIds(m.transactions)).value + 1
    ensures forall i :: 0 <= i < |m.transactions| ==> m.transactions[i].transactionId != id
    ensures !HasTransaction(m, id)
  {
    var ids := TransactionIds(m.transactions);
    var id := NextId('T', ids);
    assert forall i :: 0 <= i < |m.transactions| ==> ids[i] == m.transactions[i].transactionId;
    id
  }

  // ---------------------------------------------------------------------
  // Students and resources
  // ---------------------------------------------------------------------

  /** `add_student`. */
  function AddStudent(m: Manager, studentId: string, name: string, email: string): (r: Result<Manager>)
    ensures AllSpace(studentId) || AllSpace(name) || AllSpace(email) ==> r == Fail(ValidationError)
    ensures !AllSpace(studentId) && !AllSpace(name) && !AllSpace(email) ==>
      (r == Fail(ConflictError) <==> HasStudent(m, Trim(studentId)))
    ensures r.Ok? <==>
      !AllSpace(studentId) && !AllSpace(name) && !AllSpace(email) && !HasStudent(m, Trim(studentId))
    ensures r.Ok? ==>
      && r.value.resources == m.resources
      && r.value.transactions == m.transactions
      && r.value.students == m.students + [Student(Trim(studentId), Trim(name), Trim(email))]
  {
    var id :- RequireNonempty(studentId);
    var nm :- RequireNonempty(name);
    var em :- RequireNonempty(email);
    // find_student strips and checks the id again, a no-op here
    if StudentIndex(m, id).Some? then Fail(ConflictError)
    else Ok(m.(students := m.students + [Student(id, nm, em)]))
  }

  /** `add_resource`: fields are validated in order, then the id must be new. */
  function AddResource(m: Manager, resourceId: string, name: string, rtype: string, quantity: int): (r: Result<Manager>)
    ensures AllSpace(resourceId) || AllSpace(name) || AllSpace(rtype) || quantity < 0 ==>
      r == Fail(ValidationError)
    ensures !AllSpace(resourceId) && !AllSpace(name) && !AllSpace(rtype) && quantity >= 0 ==>
      (r == Fail(ConflictError) <==> HasResource(m, Trim(resourceId)))
    ensures r.Ok? <==>
      && !AllSpace(resourceId) && !AllSpace(name) && !AllSpace(rtype) && quantity >= 0
      && !HasResource(m, Trim(resourceId))
    ensures r.Ok? ==>
      && r.value.students == m.students
      && r.value.transactions == m.transactions
      && r.value.resources == m.resources + [Resource(Trim(resourceId), Trim(name), Trim(rtype), quantity)]
  {
    var id :- RequireNonempty(resourceId);
    var nm :- RequireNonempty(name);
    var ty :- RequireNonempty(rtype);
    var qty :- RequireNonNegative(quantity);
    if ResourceIndex(m, id).Some? then Fail(ConflictError)
    else Ok(m.(resources := m.resources + [Resource(id, nm, ty, qty)]))
  }

  /** `update_resource_quantity`: the lookup (and its NotFoundError) comes
      before the quantity is validated; the new quantity overwrites the old
      one with no reconciliation against outstanding loans. */
  function UpdateResourceQuantity(m: Manager, resourceId: string, newQuantity: int): (r: Result<Manager>)
    ensures AllSpace(resourceId) ==> r == Fail(ValidationError)
    ensures !AllSpace(resourceId) && !HasResource(m, Trim(resourceId)) ==> r == Fail(NotFoundError)
    ensures !AllSpace(resourceId) && HasResource(m, Trim(resourceId)) && newQuantity < 0 ==>
      r == Fail(ValidationError)
    ensures r.Ok? <==> !AllSpace(resourceId) && HasResource(m, Trim(resourceId)) && newQuantity >= 0
    ensures r.Ok? ==>
      var k := ResourceAt(m, Trim(resourceId));
      && r.value.students == m.students
      && r.value.transactions == m.transactions
      && |r.value.resources| == |m.resources|
      && r.value.resources[k] == m.resources[k].(quantity := newQuantity)
      && forall j :: 0 <= j < |m.resources| && j != k ==> r.value.resources[j] == m.resources[j]
  {
    var found :- FindResource(m, resourceId);
    if found.None? then Fail(NotFoundError)
    else
      var qty :- RequireNonNegative(newQuantity);
      var k := found.value;
      Ok(m.(resources := m.resources[k := m.resources[k].(quantity := qty)]))
  }

  /** `remove_resource`, with the stripped id used throughout (see
      RemoveResourceAsWritten for the source's own use of the raw id):
      absent is NotFoundError, on loan is ConflictError, otherwise every
      record with that id goes and the rest keep their order. */
  function RemoveResource(m: Manager, resourceId: string): (r: Result<Manager>)
    ensures AllSpace(resourceId) ==> r == Fail(ValidationError)
    ensures !AllSpace(resourceId) && !HasResource(m, Trim(resourceId)) ==> r == Fail(NotFoundError)
    ensures (!AllSpace(resourceId) && HasResource(m, Trim(resourceId))
             && ResourceOnLoan(m.transactions, Trim(resourceId))) ==> r == Fail(ConflictError)
    ensures r.Ok? <==>
      && !AllSpace(resourceId) && HasResource(m, Trim(resourceId))
      && !ResourceOnLoan(m.transactions, Trim(resourceId))
    ensures r.Ok? ==>
      && r.value.students == m.students
      && r.value.transactions == m.transactions
      && !HasResource(r.value, Trim(resourceId))
      && (forall j :: 0 <= j < |m.resources| && m.resources[j].resourceId != Trim(resourceId) ==>
            m.resources[j] in r.value.resources)
      && (forall i :: 0 <= i < |r.value.resources| ==> r.value.resources[i] in m.resources)
      && r.value.resources == Filter(m.resources, (x: Resource) => x.resourceId != Trim(resourceId))
  {
    var found := FindResource(m, resourceId);
    if found.Fail? then Fail(found.error)
    else if found.value.None? then Fail(NotFoundError)
    else
      var id := Trim(resourceId);
      if |ActiveForResource(m.transactions, id)| > 0 then Fail(ConflictError)
      else
        KeyFilteredOut(m.resources, id);
        Ok(m.(resources := Filter(m.resources, (x: Resource) => x.resourceId != id)))
  }

  /** Dropping every resource with id `id` leaves none with that id and
      keeps every other one. */
  lemma KeyFilteredOut(rs: seq<Resource>, id: string)
    ensures var r := Filter(rs, (x: Resource) => x.resourceId != id);
      && (forall i :: 0 <= i < |r| ==> r[i].resourceId != id && r[i] in rs)
      && (forall j :: 0 <= j < |rs| && rs[j].resourceId != id ==> rs[j] in r)
  {
  }

  /** `remove_resource` exactly as written: the lookup strips the id, but the
      outstanding-loan check and the removal filter compare the raw id. */
  function RemoveResourceAsWritten(m: Manager, resourceId: string): (r: Result<Manager>)
    ensures Trimmed(resourceId) ==> r == RemoveResource(m, resourceId)
    ensures r.Ok? <==>
      && !AllSpace(resourceId) && HasResource(m, Trim(resourceId))
      && !ResourceOnLoan(m.transactions, resourceId)
    ensures r.Ok? ==>
      && r.value.students == m.students
      && r.value.transactions == m.transactions
      && r.value.resources == Filter(m.resources, (x: Resource) => x.resourceId != resourceId)
  {
    var found :- FindResource(m, resourceId);
    if found.None? then Fail(NotFoundError)
    else if |ActiveForResource(m.transactions, resourceId)| > 0 then Fail(ConflictError)
    else Ok(m.(resources := Filter(m.resources, (x: Resource) => x.resourceId != resourceId)))
  }

  /** `list_resources`: a copy of the stored list; copies of immutable
      records are the records themselves. */
  function ListResources(m: Manager): seq<Resource> {
    m.resources
  }

  /** `list_available_resources`: the resources with stock left, in order. */
  function ListAvailableResources(m: Manager): (r: seq<Resource>)
    ensures forall i :: 0 <= i < |r| ==> r[i] in m.resources && IsAvailable(r[i])
    ensures forall j :: 0 <= j < |m.resources| && m.resources[j].quantity > 0 ==> m.resources[j] in r
    ensures r == Filter(m.resources, IsAvailable)
  {
    Filter(m.resources, IsAvailable)
  }

  // ---------------------------------------------------------------------
  // Borrowing and returning
  // ---------------------------------------------------------------------

  /** Every check of `borrow_resource` before the date passes for the
      stripped ids. */
  predicate MayBorrow(m: Manager, studentId: string, resourceId: string) {
    && HasStudent(m, studentId)
    && HasResource(m, resourceId)
    && Stock(m, resourceId) > 0
    && !HasActiveLoan(m.transactions, studentId, resourceId)
  }

  /** The resource list with the stock at position `k` moved by `delta`. */
  function AdjustStock(resources: seq<Resource>, k: nat, delta: int): (r: seq<Resource>)
    requires k < |resources|
    ensures |r| == |resources|
    ensures r[k] == resources[k].(quantity := resources[k].quantity + delta)
    ensures forall j :: 0 <= j < |resources| && j != k ==> r[j] == resources[j]
  {
    resources[k := resources[k].(quantity := resources[k].quantity + delta)]
  }

  /** The resource list of `m'` is that of `m` with the stock at position
      `k` moved by `delta`. */
  predicate StockMoved(m: Manager, k: nat, delta: int, m': Manager)
    requires k < |m.resources|
  {
    && |m'.resources| == |m.resources|
    && m'.resources[k] == m.resources[k].(quantity := m.resources[k].quantity + delta)
    && forall j :: 0 <= j < |m.resources| && j != k ==> m'.resources[j] == m.resources[j]
  }

  /** The ledger of `m'` is that of `m` with one new outstanding loan of
      `resourceId` to `studentId` from `borrowDate`, under an id not in use. */
  predicate LoanRecorded(m: Manager, studentId: string, resourceId: string, borrowDate: string,
                         m': Manager, tx: Transaction)
  {
    && m'.transactions == m.transactions + [tx]
    && IsSeqId('T', tx.transactionId)
    && !HasTransaction(m, tx.transactionId)
    && tx.studentId == studentId && tx.resourceId == resourceId
    && tx.status == Borrowed && tx.returnDate == None
    && tx.borrowDate == borrowDate
  }

  /** The due date is `dueDays` after the borrow date. */
  predicate DueAfter(cfg: Config, tx: Transaction) {
    && ParseDate(tx.borrowDate).Ok? && ParseDate(tx.dueDate).Ok?
    && Ordinal(ParseDate(tx.dueDate).value) == Ordinal(ParseDate(tx.borrowDate).value) + cfg.dueDays
  }

  /** What a successful borrow of `resourceId` by `studentId` on `borrowDate`
      leaves behind: one new outstanding transaction under the next
      transaction id, due `dueDays` after the borrow date, appended to the
      ledger; one unit less of the resource a lookup finds; the students as
      they were. */
  predicate LoanMade(cfg: Config, m: Manager, studentId: string, resourceId: string, borrowDate: string,
                     m': Manager, tx: Transaction)
    requires HasResource(m, resourceId)
  {
    && m'.students == m.students
    && StockMoved(m, ResourceAt(m, resourceId), -1, m')
    && LoanRecorded(m, studentId, resourceId, borrowDate, m', tx)
    && tx.transactionId == NextTransactionId(m)
    && DueAfter(cfg, tx)
  }

  /** The dated part of `borrow_resource`, once the ids are found and the
      loan is allowed: the date is validated, the due date computed, and the
      transaction recorded. */
  function Lend(cfg: Config, m: Manager, studentId: string, resourceId: string, borrowDate: string)
    : (r: Result<(Manager, Transaction)>)
    requires HasResource(m, resourceId)
    ensures ParseDate(borrowDate).Fail? ==> r == Fail(ValidationError)
    ensures r.Ok? <==>
      ParseDate(borrowDate).Ok? && 1 <= Ordinal(ParseDate(borrowDate).value) + cfg.dueDays <= MaxOrdinal
    ensures ParseDate(borrowDate).Ok? && r.Fail? ==> r.error == OverflowError
    ensures r.Ok? ==> LoanMade(cfg, m, studentId, resourceId, borrowDate, r.value.0, r.value.1)
  {
    var parsed :- ParseDate(borrowDate);
    var dueDate :- IsoPlusDays(borrowDate, cfg.dueDays);
    Ok(Open(cfg, m, studentId, resourceId, borrowDate, dueDate))
  }

  /** The state change of a borrow, given the computed due date. */
  function Open(cfg: Config, m: Manager, studentId: string, resourceId: string, borrowDate: string, dueDate: string)
    : (out: (Manager, Transaction))
    requires HasResource(m, resourceId)
    requires ParseDate(borrowDate).Ok? && ParseDate(dueDate).Ok?
    requires Ordinal(ParseDate(dueDate).value) == Ordinal(ParseDate(borrowDate).value) + cfg.dueDays
    ensures LoanMade(cfg, m, studentId, resourceId, borrowDate, out.0, out.1)
  {
    var tx := Transaction(NextTransactionId(m), studentId, resourceId, borrowDate, dueDate, None, Borrowed);
    (m.(resources := AdjustStock(m.resources, ResourceAt(m, resourceId), -1), transactions := m.transactions + [tx]), tx)
  }

  /** `borrow_resource(student_id, resource_id, borrow_date)`; the date is
      the caller's (the source's default, today, is a clock read). The ids
      are stripped and checked, the student and the resource must exist,
      the resource must have stock and the pair no outstanding loan. */
  function BorrowResource(cfg: Config, m: Manager, studentId: string, resourceId: string, borrowDate: string)
    : (r: Result<(Manager, Transaction)>)
    ensures AllSpace(studentId) || AllSpace(resourceId) ==> r == Fail(ValidationError)
    ensures !AllSpace(studentId) && !AllSpace(resourceId) && !HasStudent(m, Trim(studentId)) ==>
      r == Fail(NotFoundError)
    ensures (!AllSpace(studentId) && !AllSpace(resourceId) && HasStudent(m, Trim(studentId))
             && !HasResource(m, Trim(resourceId))) ==> r == Fail(NotFoundError)
    ensures (!AllSpace(studentId) && !AllSpace(resourceId)
             && HasStudent(m, Trim(studentId)) && HasResource(m, Trim(resourceId))
             && (Stock(m, Trim(resourceId)) <= 0 || HasActiveLoan(m.transactions, Trim(studentId), Trim(resourceId))))
            ==> r == Fail(ConflictError)
    ensures (!AllSpace(studentId) && !AllSpace(resourceId) && MayBorrow(m, Trim(studentId), Trim(resourceId))
             && ParseDate(Trim(borrowDate)).Fail?) ==> r == Fail(ValidationError)
    ensures (!AllSpace(studentId) && !AllSpace(resourceId) && MayBorrow(m, Trim(studentId), Trim(resourceId))
             && ParseDate(Trim(borrowDate)).Ok? && r.Fail?) ==> r.error == OverflowError
    ensures r.Ok? <==>
      && !AllSpace(studentId) && !AllSpace(resourceId)
      && MayBorrow(m, Trim(studentId), Trim(resourceId))
      && ParseDate(Trim(borrowDate)).Ok?
      && 1 <= Ordinal(ParseDate(Trim(borrowDate)).value) + cfg.dueDays <= MaxOrdinal
    ensures r.Ok? ==>
      && HasResource(m, Trim(resourceId))
      && LoanMade(cfg, m, Trim(studentId), Trim(resourceId), Trim(borrowDate), r.value.0, r.value.1)
  {
    var sid :- RequireNonempty(studentId);
    var rid :- RequireNonempty(resourceId);
    // find_student and find_resource strip and check the ids again, a no-op here
    if StudentIndex(m, sid).None? then Fail(NotFoundError)
    else if ResourceIndex(m, rid).None? then Fail(NotFoundError)
    else if m.resources[ResourceIndex(m, rid).value].quantity <= 0 then Fail(ConflictError)
    else if |ActiveForPair(m.transactions, sid, rid)| > 0 then Fail(ConflictError)
    else Lend(cfg, m, sid, rid, Trim(borrowDate))
  }

  /** Every check of `return_resource` before the date passes for the
      stripped transaction id. */
  predicate MayReturn(m: Manager, transactionId: string) {
    && HasTransaction(m, transactionId)
    && var tx := m.transactions[TransactionAt(m, transactionId)];
      && tx.status == Borrowed
      && !AllSpace(tx.resourceId)
      && HasResource(m, Trim(tx.resourceId))
  }

  /** What a successful return of the transaction at position `i`, whose
      resource is at position `k`, on `returnDate` leaves behind: that
      transaction marked returned with the date, one unit more of the
      resource, everything else as it was. */
  predicate LoanClosed(m: Manager, i: nat, k: nat, returnDate: string, m': Manager, tx': Transaction)
    requires i < |m.transactions| && k < |m.resources|
  {
    && m'.students == m.students
    && StockMoved(m, k, 1, m')
    && tx' == m.transactions[i].(returnDate := Some(returnDate), status := Returned)
    && m'.transactions == m.transactions[i := tx']
  }

  /** The dated part of `return_resource`, once the transaction and its
      resource are found. */
  function Restore(m: Manager, i: nat, k: nat, returnDate: string): (r: Result<(Manager, Transaction)>)
    requires i < |m.transactions| && k < |m.resources|
    ensures r.Ok? <==> ParseDate(returnDate).Ok?
    ensures r.Fail? ==> r.error == ValidationError
    ensures r.Ok? ==> LoanClosed(m, i, k, returnDate, r.value.0, r.value.1)
  {
    var parsed :- ParseDate(returnDate);
    Ok(Close(m, i, k, returnDate))
  }

  /** The state change of a return. */
  function Close(m: Manager, i: nat, k: nat, returnDate: string): (out: (Manager, Transaction))
    requires i < |m.transactions| && k < |m.resources|
    ensures LoanClosed(m, i, k, returnDate, out.0, out.1)
  {
    var tx' := m.transactions[i].(returnDate := Some(returnDate), status := Returned);
    (m.(resources := AdjustStock(m.resources, k, 1), transactions := m.transactions[i := tx']), tx')
  }

  /** `return_resource(transaction_id, return_date)`: the transaction must
      exist and be outstanding, and its resource must still exist. */
  function ReturnResource(m: Manager, transactionId: string, returnDate: string): (r: Result<(Manager, Transaction)>)
    ensures AllSpace(transactionId) ==> r == Fail(ValidationError)
    ensures !AllSpace(transactionId) && !HasTransaction(m, Trim(transactionId)) ==> r == Fail(NotFoundError)
    ensures (!AllSpace(transactionId) && HasTransaction(m, Trim(transactionId))
             && m.transactions[TransactionAt(m, Trim(transactionId))].status != Borrowed)
            ==> r == Fail(ConflictError)
    ensures (!AllSpace(transactionId) && HasTransaction(m, Trim(transactionId))
             && m.transactions[TransactionAt(m, Trim(transactionId))].status == Borrowed
             && AllSpace(m.transactions[TransactionAt(m, Trim(transactionId))].resourceId))
            ==> r == Fail(ValidationError)
    ensures (!AllSpace(transactionId) && HasTransaction(m, Trim(transactionId))
             && var tx := m.transactions[TransactionAt(m, Trim(transactionId))];
                tx.status == Borrowed && !AllSpace(tx.resourceId) && !HasResource(m, Trim(tx.resourceId)))
            ==> r == Fail(NotFoundError)
    ensures (!AllSpace(transactionId) && MayReturn(m, Trim(transactionId)) && ParseDate(Trim(returnDate)).Fail?)
            ==> r == Fail(ValidationError)
    ensures r.Ok? <==>
      !AllSpace(transactionId) && MayReturn(m, Trim(transactionId)) && ParseDate(Trim(returnDate)).Ok?
    ensures r.Ok? ==>
      && HasTransaction(m, Trim(transactionId))
      && HasResource(m, Trim(m.transactions[TransactionAt(m, Trim(transactionId))].resourceId))
      && LoanClosed(m, TransactionAt(m, Trim(transactionId)),
                    ResourceAt(m, Trim(m.transactions[TransactionAt(m, Trim(transactionId))].resourceId)),
                    Trim(returnDate), r.value.0, r.value.1)
  {
    var found :- FindTransaction(m, transactionId);
    if found.None? then Fail(NotFoundError)
    else
      var i := found.value;
      var tx := m.transactions[i];
      if tx.status != Borrowed then Fail(ConflictError)
      else
        var resource :- FindResource(m, tx.resourceId);
        if resource.None? then Fail(NotFoundError)
        else Restore(m, i, resource.value, Trim(returnDate))
  }

  /** Position of the first outstanding loan of a pair. */
  function LoanAt(txs: seq<Transaction>, studentId: string, resourceId: string): (k: nat)
    requires HasActiveLoan(txs, studentId, resourceId)
    ensures k < |txs| && OnLoan(txs[k], studentId, resourceId)
    ensures forall j :: 0 <= j < k ==> !OnLoan(txs[j], studentId, resourceId)
  {
    FirstIndex(txs, (t: Transaction) => OnLoan(t, studentId, resourceId)).value
  }

  /** `return_resource_by_student_resource`: no outstanding loan of the pair
      is NotFoundError, more than one is ConflictError, and a single one is
      returned exactly as `return_resource` would return it. */
  function ReturnByStudentResource(m: Manager, studentId: string, resourceId: string, returnDate: string)
    : (r: Result<(Manager, Transaction)>)
    ensures AllSpace(studentId) || AllSpace(resourceId) ==> r == Fail(ValidationError)
    ensures (!AllSpace(studentId) && !AllSpace(resourceId)
             && !HasActiveLoan(m.transactions, Trim(studentId), Trim(resourceId))) ==> r == Fail(NotFoundError)
    ensures (!AllSpace(studentId) && !AllSpace(resourceId)
             && TwoLoans(m.transactions, Trim(studentId), Trim(resourceId))) ==> r == Fail(ConflictError)
    ensures (!AllSpace(studentId) && !AllSpace(resourceId)
             && HasActiveLoan(m.transactions, Trim(studentId), Trim(resourceId))
             && !TwoLoans(m.transactions, Trim(studentId), Trim(resourceId))) ==>
      r == ReturnResource(m, m.transactions[LoanAt(m.transactions, Trim(studentId), Trim(resourceId))].transactionId, returnDate)
  {
    var sid :- RequireNonempty(studentId);
    var rid :- RequireNonempty(resourceId);
    var active := ActiveForPair(m.transactions, sid, rid);
    if |active| == 0 then Fail(NotFoundError)
    else if |active| > 1 then Fail(ConflictError)
    else
      SingleLoan(m.transactions, sid, rid, active[0]);
      ReturnResource(m, active[0].transactionId, returnDate)
  }

  /** With exactly one outstanding loan of a pair, any outstanding loan of
      that pair found in the ledger is the first one. */
  lemma SingleLoan(txs: seq<Transaction>, studentId: string, resourceId: string, t: Transaction)
    requires !TwoLoans(txs, studentId, resourceId)
    requires t in txs && OnLoan(t, studentId, resourceId)
    ensures t == txs[LoanAt(txs, studentId, resourceId)]
  {
  }

  // ---------------------------------------------------------------------
  // Reports
  // ---------------------------------------------------------------------

  /** `list_transactions(student_id=None)`: all transactions, or those of one
      student, in ledger order. */
  function ListTransactions(m: Manager, studentId: Option<string>): (r: Result<seq<Transaction>>)
    ensures studentId.None? ==> r == Ok(m.transactions)
    ensures studentId.Some? && AllSpace(studentId.value) ==> r == Fail(ValidationError)
    ensures studentId.Some? && r.Ok? ==>
      && (forall i :: 0 <= i < |r.value| ==> r.value[i] in m.transactions && r.value[i].studentId == Trim(studentId.value))
      && (forall j :: 0 <= j < |m.transactions| && m.transactions[j].studentId == Trim(studentId.value) ==>
            m.transactions[j] in r.value)
      && r.value == Filter(m.transactions, (t: Transaction) => t.studentId == Trim(studentId.value))
  {
    match studentId
    case None => Ok(m.transactions)
    case Some(s) =>
      match RequireNonempty(s)
      case Fail(e) => Fail(e)
      case Ok(sid) => Ok(Filter(m.transactions, (t: Transaction) => t.studentId == sid))
  }

  /** `is_overdue(tx, current_date)`: only an outstanding loan can be
      overdue, and only once the current date is strictly after its due
      date; either date failing to parse is a ValidationError. */
  function IsOverdue(tx: Transaction, currentDate: string): (r: Result<bool>)
    ensures tx.status == Returned ==> r == Ok(false)
    ensures tx.status == Borrowed ==>
      (r.Ok? <==> ParseDate(tx.dueDate).Ok? && ParseDate(currentDate).Ok?)
    ensures tx.status == Borrowed && r.Ok? ==>
      (r.value <==> Ordinal(ParseDate(currentDate).value) > Ordinal(ParseDate(tx.dueDate).value))
    ensures r.Fail? ==> r.error == ValidationError
  {
    if tx.status != Borrowed then Ok(false)
    else
      var due :- ParseDate(tx.dueDate);
      var cur :- ParseDate(currentDate);
      LaterIffOrdinal(cur, due);
      Ok(Later(cur, due))
  }

  /** The `for t in self.transactions: if self.is_overdue(t, cdate)` loop;
      the first transaction whose check raises ends it. */
  function OverdueAmong(txs: seq<Transaction>, currentDate: string): (r: Result<seq<Transaction>>)
    ensures r.Fail? ==> r.error == ValidationError
    ensures r.Ok? ==> |r.value| <= |txs|
  {
    if |txs| == 0 then Ok([])
    else
      var first := IsOverdue(txs[0], currentDate);
      var rest := OverdueAmong(txs[1..], currentDate);
      if first.Fail? then Fail(ValidationError)
      else if rest.Fail? then Fail(ValidationError)
      else Ok(if first.value then [txs[0]] + rest.value else rest.value)
  }

  /** The scan succeeds exactly when every transaction's check does. */
  lemma {:induction false} OverdueAmongOk(txs: seq<Transaction>, currentDate: string)
    ensures OverdueAmong(txs, currentDate).Ok? <==> forall i :: 0 <= i < |txs| ==> IsOverdue(txs[i], currentDate).Ok?
  {
    if |txs| > 0 {
      var tail := txs[1..];
      OverdueAmongOk(tail, currentDate);
      assert OverdueAmong(txs, currentDate).Ok?
         <==> IsOverdue(txs[0], currentDate).Ok? && OverdueAmong(tail, currentDate).Ok?;
      ChecksCons(txs, currentDate);
    }
  }

  /** Every check succeeds exactly when the first one and every later one do. */
  lemma ChecksCons(txs: seq<Transaction>, currentDate: string)
    requires |txs| > 0
    ensures (forall i :: 0 <= i < |txs| ==> IsOverdue(txs[i], currentDate).Ok?)
        <==> IsOverdue(txs[0], currentDate).Ok?
             && forall i :: 0 <= i < |txs[1..]| ==> IsOverdue(txs[1..][i], currentDate).Ok?
  {
    assert forall i :: 1 <= i < |txs| ==> txs[i] == txs[1..][i - 1];
  }

  /** A successful scan keeps exactly the overdue transactions, in order. */
  lemma {:induction false} OverdueAmongFilter(txs: seq<Transaction>, currentDate: string)
    ensures OverdueAmong(txs, currentDate).Ok? ==>
      OverdueAmong(txs, currentDate).value == Filter(txs, (t: Transaction) => IsOverdue(t, currentDate) == Ok(true))
  {
    if |txs| > 0 {
      OverdueAmongFilter(txs[1..], currentDate);
    }
  }

  /** `list_overdue(current_date)`: the date is stripped and validated, then
      the overdue transactions are listed in ledger order. */
  function ListOverdue(m: Manager, currentDate: string): (r: Result<seq<Transaction>>)
    ensures ParseDate(Trim(currentDate)).Fail? ==> r == Fail(ValidationError)
    ensures r.Ok? <==> ParseDate(Trim(currentDate)).Ok? && DueDatesReadable(m.transactions)
    ensures r.Ok? ==>
      r.value == Filter(m.transactions, (t: Transaction) => IsOverdue(t, Trim(currentDate)) == Ok(true))
  {
    var cdate := Trim(currentDate);
    if ParseDate(cdate).Fail? then Fail(ValidationError)
    else
      ChecksSucceed(m.transactions, cdate);
      OverdueAmongOk(m.transactions, cdate);
      OverdueAmongFilter(m.transactions, cdate);
      OverdueAmong(m.transactions, cdate)
  }

  /** Every outstanding loan has a due date that reads as a date. */
  predicate DueDatesReadable(txs: seq<Transaction>) {
    forall i :: 0 <= i < |txs| && txs[i].status == Borrowed ==> ParseDate(txs[i].dueDate).Ok?
  }

  /** With a readable current date, every overdue check succeeds exactly
      when every outstanding loan has a readable due date. */
  lemma ChecksSucceed(txs: seq<Transaction>, currentDate: string)
    requires ParseDate(currentDate).Ok?
    ensures (forall i :: 0 <= i < |txs| ==> IsOverdue(txs[i], currentDate).Ok?) <==> DueDatesReadable(txs)
  {
  }
}
