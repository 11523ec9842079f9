/** The request-local table of completed checks. */
module CheckMemo {
  import opened Vocabulary
  import opened Semantics
  import opened MembershipAlgebra
  import opened CheckSpec

  const MIN_CAPACITY := 128
  const MAX_CAPACITY := 16384

  /** Completed checks are identified across key forms: only nativeness is kept. */
  datatype MemoKey = MemoKey(native: bool, entity: Object, relation: string, user: User)

  function MemoKeyOf(key: CheckKey): MemoKey {
    MemoKey(key.form == StoreNative, key.entity, key.relation, key.user)
  }

  datatype MemoEntry = MemoEntry(membership: Membership, depthRequired: nat)

  datatype MemoLookup = Hit(membership: Membership) | Miss | DepthInsufficient

  function Clamp(value: nat, low: nat, high: nat): nat {
    if value < low then low else if value > high then high else value
  }

  function MemoCapacity(limits: EvaluationLimits): nat {
    Clamp(4 * limits.maxLookupResults, MIN_CAPACITY, MAX_CAPACITY)
  }

  datatype RequestCheckMemo = RequestCheckMemo(entries: map<MemoKey, MemoEntry>, capacity: nat) {

    function Get(key: MemoKey, remainingDepth: nat): MemoLookup {
      if key !in entries then Miss
      else if entries[key].depthRequired <= remainingDepth then Hit(entries[key].membership)
      else DepthInsufficient
    }

    function Insert(key: MemoKey, membership: Membership, depthRequired: nat): RequestCheckMemo {
      if key in entries then
        if depthRequired <= entries[key].depthRequired
        then this.(entries := entries[key := MemoEntry(membership, depthRequired)])
        else this
      else if |entries| >= capacity then this
      else this.(entries := entries[key := MemoEntry(membership, depthRequired)])
    }

    /** There is room for a new key, or the stored answer took at least as much depth. */
    predicate TakesIn(key: MemoKey, depthRequired: nat) {
      if key in entries then depthRequired <= entries[key].depthRequired else |entries| < capacity
    }

    /** Every remembered answer is declarative membership; if not `exact`, at least every allowance is. */
    ghost predicate Sound(snapshot: Snapshot, exact: bool) {
      forall key :: key in entries ==>
        EntrySound(entries[key].membership, Member(snapshot, key.user)(Node(key.entity, key.relation)), exact)
    }
  }

  ghost predicate EntrySound(membership: Membership, holds: bool, exact: bool) {
    if exact then membership == FromBool(holds) else membership == Allowed ==> holds
  }

  /** An entry keeps the smallest depth it was established with, and with it the answer; the table never
      outgrows its capacity and other entries stay. An answer inserted with no more depth than is stored, into
      a table with room for it, is what any caller with that much depth left finds. */
  lemma InsertThenGet(memo: RequestCheckMemo, key: MemoKey, membership: Membership, depthRequired: nat, remainingDepth: nat)
    requires |memo.entries| <= memo.capacity
    ensures var after := memo.Insert(key, membership, depthRequired);
            && |after.entries| <= after.capacity == memo.capacity
            && (forall other :: other != key ==> after.Get(other, remainingDepth) == memo.Get(other, remainingDepth))
            && (key in memo.entries ==> key in after.entries
                                        && after.entries[key].depthRequired <= memo.entries[key].depthRequired)
            && (key in memo.entries && memo.entries[key].depthRequired < depthRequired ==>
                  after.Get(key, remainingDepth) == memo.Get(key, remainingDepth))
            && (memo.TakesIn(key, depthRequired) && depthRequired <= remainingDepth ==>
                  after.Get(key, remainingDepth) == Hit(membership))
  {
    if key in memo.entries {
      assert memo.entries[key := MemoEntry(membership, depthRequired)].Keys == memo.entries.Keys;
    }
  }
}
