/** Prefixed sequence identifiers: "T001", "T002", ... for transactions
    (`SystemManager.next_transaction_id`) and "S001", ... for students
    (`_generate_student_id`, which copies the same scheme). An identifier is
    well formed when it is the prefix letter followed by one or more
    digits; the next identifier is the prefix and one more than the largest
    well-formed number, zero-filled to at least three digits.
 */
module SequenceIds {
  import opened Wrappers
  import opened Text
  import opened Numerals

  /** `tid.startswith(prefix) and tid[1:].isdigit()`. */
  predicate IsSeqId(prefix: char, id: string) {
    |id| >= 2 && id[0] == prefix && IsDigits(id[1..])
  }

  /** A well-formed identifier with a non-blank prefix survives `strip`: it
      starts with the prefix and ends with a digit. */
  lemma SeqIdTrimmed(prefix: char, id: string)
    requires IsSeqId(prefix, id) && !IsSpace(prefix)
    ensures Trimmed(id) && !AllSpace(id)
  {
    assert id[|id| - 1] == id[1..][|id| - 2];
  }

  /** `int(tid[1:])`. */
  function SeqNum(prefix: char, id: string): nat
    requires IsSeqId(prefix, id)
  {
    Value(id[1..])
  }

  /** `max(nums)` over the well-formed identifiers, None when `nums` is empty. */
  function MaxSeqNum(prefix: char, ids: seq<string>): (r: Option<nat>)
    ensures r.None? <==> forall i :: 0 <= i < |ids| ==> !IsSeqId(prefix, ids[i])
    ensures r.Some? ==>
      exists i :: 0 <= i < |ids| && IsSeqId(prefix, ids[i]) && SeqNum(prefix, ids[i]) == r.value
    ensures r.Some? ==>
      forall i :: 0 <= i < |ids| && IsSeqId(prefix, ids[i]) ==> SeqNum(prefix, ids[i]) <= r.value
  {
    if |ids| == 0 then None
    else
      var init := ids[..|ids| - 1];
      var last := ids[|ids| - 1];
      var before := MaxSeqNum(prefix, init);
      assert forall i :: 0 <= i < |init| ==> init[i] == ids[i];
      if !IsSeqId(prefix, last) then before
      else
        var n := SeqNum(prefix, last);
        match before
        case None => Some(n)
        case Some(m) => if m < n then Some(n) else Some(m)
  }

  /** `prefix + str(new_num).zfill(3)`. */
  function Format(prefix: char, n: nat): string {
    [prefix] + ZFill(Show(n), 3)
  }

  /** A formatted identifier is well formed and carries its number. */
  lemma FormatWellFormed(prefix: char, n: nat)
    ensures IsSeqId(prefix, Format(prefix, n))
    ensures SeqNum(prefix, Format(prefix, n)) == n
    ensures |Format(prefix, n)| >= 4
    ensures |Format(prefix, n)| == 4 || Format(prefix, n)[1] != '0'
  {
    var id := Format(prefix, n);
    assert id[1..] == ZFill(Show(n), 3);
    ValueZFill(Show(n), 3);
    if |Show(n)| > 3 {
      assert id[1] == Show(n)[0];
    }
  }

  /** The identifier allocated next: the first is number 1, later ones are
      one past the largest well-formed number in use. The digits are padded
      to three and no further: a longer identifier has no leading zero. */
  function NextId(prefix: char, ids: seq<string>): (r: string)
    ensures IsSeqId(prefix, r) && |r| >= 4
    ensures |r| == 4 || r[1] != '0'
    ensures MaxSeqNum(prefix, ids).None? ==> SeqNum(prefix, r) == 1
    ensures MaxSeqNum(prefix, ids).Some? ==> SeqNum(prefix, r) == MaxSeqNum(prefix, ids).value + 1
    ensures forall i :: 0 <= i < |ids| && IsSeqId(prefix, ids[i]) ==>
      SeqNum(prefix, ids[i]) < SeqNum(prefix, r)
    ensures forall i :: 0 <= i < |ids| ==> ids[i] != r
  {
    var n := match MaxSeqNum(prefix, ids) case None => 1 case Some(m) => m + 1;
    FormatWellFormed(prefix, n);
    Format(prefix, n)
  }

  /** With no well-formed identifier in use (ill-formed ones are ignored),
      the first identifier is the prefix followed by "001". */
  lemma FirstId(prefix: char, ids: seq<string>)
    requires forall i :: 0 <= i < |ids| ==> !IsSeqId(prefix, ids[i])
    ensures NextId(prefix, ids) == [prefix, '0', '0', '1']
  {
    assert Show(1) == ['1'];
    assert Zeros(2) == ['0', '0'];
  }

  /** Adding the identifier just allocated makes the following one the next
      number: identifiers are handed out consecutively. */
  lemma NextIdConsecutive(prefix: char, ids: seq<string>)
    ensures SeqNum(prefix, NextId(prefix, ids + [NextId(prefix, ids)]))
         == SeqNum(prefix, NextId(prefix, ids)) + 1
  {
    var r := NextId(prefix, ids);
    var ids' := ids + [r];
    assert ids'[..|ids'| - 1] == ids;
    assert MaxSeqNum(prefix, ids') == Some(SeqNum(prefix, r));
  }
}
