/**
 * The measurement-list engine of one IMA namespace: digest lookup in the
 * hash table, appending an entry to the list (and to the table), the
 * saturating serialised-size tally, the PCR extend with its poison digests
 * for violations, and the global admission ring (vett_queue) that orders
 * additions across namespaces.
 *
 * Locks and RCU are sequential updates here. Foreign calls become
 * parameters: `allocOk` is the outcome of kmalloc/kcalloc and `tpmResult`
 * the return code of tpm_pcr_extend. Audit messages are recorded in
 * QueueState.audit, the calls to tpm_pcr_extend in QueueState.extendCalls.
 */
module ImaQueue {
  import opened Bytes
  import opened Ima

  const MAX_VETT_QUEUE_LEN: nat := 1024

  /** One call to tpm_pcr_extend: the PCR and the digests handed to the chip. */
  datatype ExtendCall = ExtendCall(pcr: int, digests: seq<TpmDigest>)

  /** The audit_cause strings: "hash_added", "hash_exists", "ENOMEM", "TPM_error(%d)". */
  datatype AuditCause = HashAdded | HashExists | OutOfMemory | TpmError(code: int)

  /** One integrity_audit_msg call. */
  datatype AuditRecord = AuditRecord(op: seq<byte>, filename: seq<byte>, cause: AuditCause, result: int, info: int)

  /**
   * An allocated TPM bank; `mapped` is false when the crypto layer has no
   * algorithm for it (crypto_id == HASH_ALGO__LAST).
   */
  datatype TpmBank = TpmBank(algId: nat, digestSize: nat, mapped: bool)

  datatype TpmChip = TpmChip(banks: seq<TpmBank>)

  /**
   * The file-static state of the engine: the admission ring and its two
   * cursors, the pre-filled violation digests, and what the engine uses
   * from elsewhere (ima_tpm_chip, init_ima_ns).
   */
  class QueueState {
    const vettQueue: array<int>
    var actualId: int
    var nextEmptySlot: int
    var digests: array?<TpmDigest>
    const chip: Option<TpmChip>
    const initNs: Namespace
    var extendCalls: seq<ExtendCall>
    var audit: seq<AuditRecord>

    ghost predicate Valid()
      reads this
    {
      vettQueue.Length == MAX_VETT_QUEUE_LEN &&
      0 <= actualId < MAX_VETT_QUEUE_LEN &&
      0 <= nextEmptySlot < MAX_VETT_QUEUE_LEN
    }

    /** Static storage starts zeroed. */
    constructor (chip: Option<TpmChip>, initNs: Namespace)
      ensures Valid() && fresh(vettQueue)
      ensures this.chip == chip && this.initNs == initNs
      ensures vettQueue[..] == seq(MAX_VETT_QUEUE_LEN, _ => 0)
      ensures actualId == 0 && nextEmptySlot == 0 && digests == null
      ensures extendCalls == [] && audit == []
    {
      this.chip := chip;
      this.initNs := initNs;
      vettQueue := new int[MAX_VETT_QUEUE_LEN](_ => 0);
      actualId := 0;
      nextEmptySlot := 0;
      digests := null;
      extendCalls := [];
      audit := [];
    }
  }

  // ---------------------------------------------------------------------
  // ima_lookup_digest_entry

  /** An entry has this digest (compared over hash_digest_size bytes) and this pcr. */
  predicate EntryMatches(e: TemplateEntry, digest: seq<byte>, pcr: int)
    requires WellFormed(e) && |digest| >= IMA_HASH_DIGEST_SIZE
  {
    HashDigest(e) == digest[..IMA_HASH_DIGEST_SIZE] && e.pcr == pcr
  }

  /** A matching entry lies in the bucket of the digest looked up. */
  lemma MatchSameBucket(e: TemplateEntry, digest: seq<byte>, pcr: int)
    requires WellFormed(e) && |digest| >= IMA_HASH_DIGEST_SIZE
    ensures EntryMatches(e, digest, pcr) ==> KeyOf(e) == HashKey(digest)
  {
    if EntryMatches(e, digest, pcr) {
      var d := e.digests[IMA_HASH_ALGO_IDX].digest;
      assert d[0] == HashDigest(e)[0] == digest[0];
      assert d[1] == HashDigest(e)[1] == digest[1];
    }
  }

  /**
   * Walks the chain of bucket HashKey(digestValue) and returns the first
   * node whose entry matches. Because chains are newest first, this is the
   * most recent matching entry of the table; no result means the table
   * holds no match at all.
   */
  method LookupDigestEntry(ns: Namespace, digestValue: seq<byte>, pcr: int) returns (r: Option<nat>)
    requires ns.Valid()
    requires |digestValue| >= IMA_HASH_DIGEST_SIZE
    ensures r.Some? ==> r.value in ns.queue[HashKey(digestValue)] && r.value in ns.indexed
    ensures r.Some? ==> r.value < |ns.measurements| && EntryMatches(ns.measurements[r.value], digestValue, pcr)
    ensures r.Some? ==> forall i :: (i in ns.indexed && i < |ns.measurements| &&
                          EntryMatches(ns.measurements[i], digestValue, pcr)) ==> i <= r.value
    ensures r.None? <==> !ns.Indexes(digestValue[..IMA_HASH_DIGEST_SIZE], pcr)
  {
    var key := HashKey(digestValue);
    var chain := ns.queue[key];
    var p := 0;
    while p < |chain|
      invariant 0 <= p <= |chain|
      invariant forall q :: 0 <= q < p ==> !EntryMatches(ns.measurements[chain[q]], digestValue, pcr)
    {
      var qe := chain[p];
      if HashDigest(ns.measurements[qe]) == digestValue[..IMA_HASH_DIGEST_SIZE] && ns.measurements[qe].pcr == pcr {
        forall i | i in ns.indexed && i < |ns.measurements| && EntryMatches(ns.measurements[i], digestValue, pcr)
          ensures i <= qe
        {
          MatchSameBucket(ns.measurements[i], digestValue, pcr);
          var q :| 0 <= q < |chain| && chain[q] == i;
          assert q >= p;
        }
        return Some(qe);
      }
      p := p + 1;
    }
    forall i | i in ns.indexed && i < |ns.measurements|
      ensures !EntryMatches(ns.measurements[i], digestValue, pcr)
    {
      MatchSameBucket(ns.measurements[i], digestValue, pcr);
    }
    return None;
  }

  // ---------------------------------------------------------------------
  // Size accounting

  /**
   * One step of the tally: unchanged once at ULONG_MAX, otherwise grown by
   * the entry size or pinned at ULONG_MAX, never wrapped.
   */
  function AccountEntry(tally: nat, size: nat): (r: nat)
    requires tally <= ULONG_MAX
    ensures tally <= r <= ULONG_MAX
    ensures tally == ULONG_MAX ==> r == ULONG_MAX
    ensures r == tally + size || r == ULONG_MAX
    ensures r == Min(tally + size, ULONG_MAX)
  {
    if tally != ULONG_MAX then
      (if tally < ULONG_MAX - size then tally + size else ULONG_MAX)
    else tally
  }

  /** Saturating the running tally equals saturating the exact sum. */
  lemma AccountEntryExact(log: seq<TemplateEntry>, e: TemplateEntry)
    ensures AccountEntry(Min(TotalSize(log), ULONG_MAX), EntrySize(e)) == Min(TotalSize(log + [e]), ULONG_MAX)
  {
    TotalSizeAppend(log, e);
  }

  /** The 32-bit `int` the C code sums the entry size into. */
  function EntrySizeAsWritten(e: TemplateEntry): (r: int)
    ensures -0x8000_0000 <= r < 0x8000_0000
    ensures EntrySize(e) < 0x8000_0000 ==> r == EntrySize(e)
  {
    var sum := (4 + TPM_DIGEST_SIZE + 4 + |e.desc.name| + 4 + e.templateDataLen) % U32_LIMIT;
    if sum < 0x8000_0000 then sum else sum - U32_LIMIT
  }

  /**
   * The tally step with the `int` size converted to unsigned long, as the
   * comparison and the addition at ima_queue.c:118-121 do.
   */
  function AccountEntryAsWritten(tally: nat, size: int): nat
    requires tally <= ULONG_MAX
  {
    var usize := size % (ULONG_MAX + 1);
    if tally != ULONG_MAX then
      (if tally < (ULONG_MAX - usize) % (ULONG_MAX + 1) then (tally + usize) % (ULONG_MAX + 1) else ULONG_MAX)
    else tally
  }

  /**
   * An entry of 2^31 data bytes: its size wraps to a negative `int`, and
   * the tally, instead of growing by the entry size, jumps to within 2^31
   * of ULONG_MAX.
   */
  lemma EntrySizeWraps(e: TemplateEntry)
    requires |e.desc.name| == 6 && e.templateDataLen == 0x8000_0000
    ensures EntrySize(e) == 0x8000_0026
    ensures EntrySizeAsWritten(e) == 0x26 - 0x8000_0000
    ensures AccountEntryAsWritten(0, EntrySizeAsWritten(e)) == ULONG_MAX + 1 - 0x8000_0000 + 0x26
    ensures AccountEntry(0, EntrySize(e)) == 0x8000_0026
  {
  }

  /**
   * ima_get_binary_runtime_size: the tally plus the kexec header,
   * saturated; that is, the exact size of all entries and the header,
   * saturated at ULONG_MAX.
   */
  function GetBinaryRuntimeSize(ns: Namespace): (r: nat)
    reads ns, ns.queue
    requires ns.Valid()
    ensures r == Min(TotalSize(ns.measurements) + KEXEC_HDR_SIZE, ULONG_MAX)
  {
    if ns.binaryRuntimeSize >= ULONG_MAX - KEXEC_HDR_SIZE then ULONG_MAX
    else ns.binaryRuntimeSize + KEXEC_HDR_SIZE
  }

  /** The size query never decreases when the list grows. */
  lemma GetBinaryRuntimeSizeMonotone(log: seq<TemplateEntry>, e: TemplateEntry)
    ensures Min(TotalSize(log) + KEXEC_HDR_SIZE, ULONG_MAX) <= Min(TotalSize(log + [e]) + KEXEC_HDR_SIZE, ULONG_MAX)
  {
    TotalSizeAppend(log, e);
  }

  // ---------------------------------------------------------------------
  // ima_add_digest_entry

  /**
   * Appends the entry at the tail of the list, counts it, links it at the
   * head of its bucket when updateHtable holds, and adds its size to the
   * tally. An allocation failure changes nothing.
   */
  method AddDigestEntry(ns: Namespace, entry: TemplateEntry, updateHtable: bool, allocOk: bool) returns (rc: int)
    requires ns.Valid() && WellFormed(entry)
    modifies ns`measurements, ns`len, ns`binaryRuntimeSize, ns`indexed, ns.queue
    ensures ns.Valid()
    ensures !allocOk ==> rc == -ENOMEM && ns.measurements == old(ns.measurements) && ns.len == old(ns.len) &&
                         ns.binaryRuntimeSize == old(ns.binaryRuntimeSize) && ns.indexed == old(ns.indexed) &&
                         ns.queue[..] == old(ns.queue[..])
    ensures allocOk ==> rc == 0 && ns.measurements == old(ns.measurements) + [entry] && ns.len == old(ns.len) + 1
    ensures allocOk ==> ns.binaryRuntimeSize == AccountEntry(old(ns.binaryRuntimeSize), EntrySize(entry))
    ensures allocOk && updateHtable ==>
              ns.indexed == old(ns.indexed) + {old(|ns.measurements|)} &&
              ns.queue[..] == old(ns.queue[..])[KeyOf(entry) := [old(|ns.measurements|)] + old(ns.queue[KeyOf(entry)])]
    ensures allocOk && !updateHtable ==> ns.indexed == old(ns.indexed) && ns.queue[..] == old(ns.queue[..])
  {
    if !allocOk {
      return -ENOMEM;
    }
    var n := |ns.measurements|;
    AccountEntryExact(ns.measurements, entry);
    if updateHtable {
      TablePushLinked(ns.measurements, ns.indexed, ns.queue[..], entry);
      var key := KeyOf(entry);
      ns.queue[key] := [n] + ns.queue[key];
      ns.indexed := ns.indexed + {n};
    } else {
      TablePushUnlinked(ns.measurements, ns.indexed, ns.queue[..], entry);
    }
    ns.measurements := ns.measurements + [entry];
    ns.len := ns.len + 1;
    ns.binaryRuntimeSize := AccountEntry(ns.binaryRuntimeSize, EntrySize(entry));
    rc := 0;
  }

  // ---------------------------------------------------------------------
  // ima_pcr_extend

  /** Extends the PCR through the chip; with no chip it succeeds and does nothing. */
  method PcrExtend(st: QueueState, digestsArg: seq<TpmDigest>, pcr: int, tpmResult: int) returns (result: int)
    modifies st`extendCalls
    ensures st.chip.None? ==> result == 0 && st.extendCalls == old(st.extendCalls)
    ensures st.chip.Some? ==> result == tpmResult && st.extendCalls == old(st.extendCalls) + [ExtendCall(pcr, digestsArg)]
  {
    if st.chip.None? {
      return 0;
    }
    st.extendCalls := st.extendCalls + [ExtendCall(pcr, digestsArg)];
    result := tpmResult;
  }

  // ---------------------------------------------------------------------
  // The admission ring

  /** One registration: the id goes to the next empty slot, which then advances modulo the ring size. */
  function Register(q: seq<int>, next: nat, id: int): (seq<int>, nat)
    requires |q| == MAX_VETT_QUEUE_LEN && next < MAX_VETT_QUEUE_LEN
  {
    (q[next := id], (next + 1) % MAX_VETT_QUEUE_LEN)
  }

  /** Registrations one after another. */
  function RegisterAll(q: seq<int>, next: nat, ids: seq<int>): (r: (seq<int>, nat))
    requires |q| == MAX_VETT_QUEUE_LEN && next < MAX_VETT_QUEUE_LEN
    ensures |r.0| == MAX_VETT_QUEUE_LEN && r.1 < MAX_VETT_QUEUE_LEN
  {
    if ids == [] then (q, next)
    else
      var before := RegisterAll(q, next, ids[..|ids| - 1]);
      Register(before.0, before.1, ids[|ids| - 1])
  }

  /** The cursor after n registrations is the start plus n, modulo the ring size. */
  lemma {:induction false} RegisterAllCursor(q: seq<int>, next: nat, ids: seq<int>)
    requires |q| == MAX_VETT_QUEUE_LEN && next < MAX_VETT_QUEUE_LEN
    ensures RegisterAll(q, next, ids).1 == (next + |ids|) % MAX_VETT_QUEUE_LEN
  {
    if ids != [] {
      RegisterAllCursor(q, next, ids[..|ids| - 1]);
      RingAddOne(next + |ids| - 1);
    }
  }

  /**
   * The ring keeps only the last MAX_VETT_QUEUE_LEN registrations: each of
   * them sits in the slot the start plus its rank selects, modulo the ring
   * size. Nothing detects an overflow.
   */
  lemma {:induction false} RegisterAllSlots(q: seq<int>, next: nat, ids: seq<int>)
    requires |q| == MAX_VETT_QUEUE_LEN && next < MAX_VETT_QUEUE_LEN
    ensures forall j :: 0 <= j < |ids| && |ids| <= j + MAX_VETT_QUEUE_LEN ==>
              RegisterAll(q, next, ids).0[(next + j) % MAX_VETT_QUEUE_LEN] == ids[j]
  {
    if ids != [] {
      var init := ids[..|ids| - 1];
      var last := |ids| - 1;
      RegisterAllSlots(q, next, init);
      RegisterAllCursor(q, next, init);
      var before := RegisterAll(q, next, init);
      var after := RegisterAll(q, next, ids).0;
      assert after == before.0[before.1 := ids[last]];
      forall j | 0 <= j < |ids| && |ids| <= j + MAX_VETT_QUEUE_LEN
        ensures after[(next + j) % MAX_VETT_QUEUE_LEN] == ids[j]
      {
        if j < last {
          assert init[j] == ids[j];
          RingDistinct(next + j, next + last);
        }
      }
    }
  }

  lemma RingAddOne(a: nat)
    ensures (a % MAX_VETT_QUEUE_LEN + 1) % MAX_VETT_QUEUE_LEN == (a + 1) % MAX_VETT_QUEUE_LEN
  {
  }

  lemma RingDistinct(a: nat, b: nat)
    requires 0 < b - a < MAX_VETT_QUEUE_LEN
    ensures a % MAX_VETT_QUEUE_LEN != b % MAX_VETT_QUEUE_LEN
  {
  }

  /** The 1025th registration lands on the slot of the first and overwrites it. */
  lemma RingOverwritesFirst(q: seq<int>, next: nat, ids: seq<int>)
    requires |q| == MAX_VETT_QUEUE_LEN && next < MAX_VETT_QUEUE_LEN && |ids| == MAX_VETT_QUEUE_LEN + 1
    ensures RegisterAll(q, next, ids).1 == (next + 1) % MAX_VETT_QUEUE_LEN
    ensures RegisterAll(q, next, ids).0[next] == ids[MAX_VETT_QUEUE_LEN]
  {
    RegisterAllCursor(q, next, ids);
    RingWrap(next + 1);
    RegisterAllSlots(q, next, ids);
    var j := MAX_VETT_QUEUE_LEN;
    assert 0 <= j < |ids| && |ids| <= j + MAX_VETT_QUEUE_LEN;
    assert RegisterAll(q, next, ids).0[(next + j) % MAX_VETT_QUEUE_LEN] == ids[j];
    RingWrap(next);
  }

  lemma RingWrap(a: nat)
    ensures (a + MAX_VETT_QUEUE_LEN) % MAX_VETT_QUEUE_LEN == a % MAX_VETT_QUEUE_LEN
  {
  }

  /**
   * The admission step of ima_add_template_entry: a namespace starting an
   * addition registers its id, then the caller may go on only when the
   * live slot holds startingId.
   */
  method Admit(st: QueueState, nsId: int, startingId: int) returns (admitted: bool)
    requires st.Valid()
    modifies st.vettQueue, st`nextEmptySlot
    ensures st.Valid()
    ensures startingId == nsId ==>
              (st.vettQueue[..], st.nextEmptySlot) == Register(old(st.vettQueue[..]), old(st.nextEmptySlot), nsId)
    ensures startingId != nsId ==>
              st.vettQueue[..] == old(st.vettQueue[..]) && st.nextEmptySlot == old(st.nextEmptySlot)
    ensures admitted == (st.vettQueue[st.actualId] == startingId)
  {
    if startingId == nsId {
      st.vettQueue[st.nextEmptySlot] := nsId;
      st.nextEmptySlot := (st.nextEmptySlot + 1) % MAX_VETT_QUEUE_LEN;
    }
    admitted := st.vettQueue[st.actualId] == startingId;
  }

  // ---------------------------------------------------------------------
  // ima_add_template_entry

  /**
   * Registers the namespace in the ring when it starts the admission, then
   * proceeds only when the live slot holds startingId; otherwise the source
   * spins at ima_queue.c:182 and `admitted` is false with only the
   * registration done. An admitted non-violation whose digest and pcr the
   * table already holds is refused with -EEXIST; otherwise the entry is
   * appended and indexed, init_ima_ns advances the live cursor, and the PCR
   * is extended with the entry's digests, or with the pre-filled poison
   * digests for a violation. A TPM error is audited but the entry stays.
   */
  method AddTemplateEntry(st: QueueState, ns: Namespace, entry: TemplateEntry, violation: bool,
                          op: seq<byte>, filename: seq<byte>, startingId: int,
                          allocOk: bool, tpmResult: int)
    returns (result: int, admitted: bool)
    requires st.Valid() && ns.Valid() && WellFormed(entry)
    requires st.chip.Some? ==> st.digests != null
    modifies st`actualId, st`nextEmptySlot, st`extendCalls, st`audit, st.vettQueue
    modifies ns`measurements, ns`len, ns`binaryRuntimeSize, ns`indexed, ns.queue
    ensures st.Valid() && ns.Valid()
    // registration
    ensures startingId == ns.id ==>
              (st.vettQueue[..], st.nextEmptySlot) == Register(old(st.vettQueue[..]), old(st.nextEmptySlot), ns.id)
    ensures startingId != ns.id ==>
              st.vettQueue[..] == old(st.vettQueue[..]) && st.nextEmptySlot == old(st.nextEmptySlot)
    ensures admitted == (st.vettQueue[old(st.actualId)] == startingId)
    // not admitted: the caller is still spinning
    ensures !admitted ==> (result == 0 && st.actualId == old(st.actualId) &&
              st.extendCalls == old(st.extendCalls) && st.audit == old(st.audit) &&
              ns.measurements == old(ns.measurements) && ns.indexed == old(ns.indexed))
    // duplicate
    ensures admitted && !violation && old(ns.Indexes(HashDigest(entry), entry.pcr)) ==>
              result == -EEXIST && ns.measurements == old(ns.measurements) && ns.indexed == old(ns.indexed) &&
              st.extendCalls == old(st.extendCalls) && st.actualId == old(st.actualId) &&
              st.audit == old(st.audit) + [AuditRecord(op, filename, HashExists, -EEXIST, 1)]
    // allocation failure
    ensures admitted && (violation || !old(ns.Indexes(HashDigest(entry), entry.pcr))) && !allocOk ==>
              result == -ENOMEM && ns.measurements == old(ns.measurements) && ns.indexed == old(ns.indexed) &&
              st.extendCalls == old(st.extendCalls) && st.actualId == old(st.actualId) &&
              st.audit == old(st.audit) + [AuditRecord(op, filename, OutOfMemory, -ENOMEM, 0)]
    // added
    ensures admitted && (violation || !old(ns.Indexes(HashDigest(entry), entry.pcr))) && allocOk ==>
              result == 0 &&
              ns.measurements == old(ns.measurements) + [entry] &&
              ns.indexed == old(ns.indexed) + {old(|ns.measurements|)} &&
              st.actualId == (if ns == st.initNs then (old(st.actualId) + 1) % MAX_VETT_QUEUE_LEN else old(st.actualId)) &&
              st.extendCalls == old(st.extendCalls) +
                (if st.chip.Some? then [ExtendCall(entry.pcr, if violation then st.digests[..] else entry.digests)] else []) &&
              st.audit == old(st.audit) +
                (if st.chip.Some? && tpmResult != 0
                 then [AuditRecord(op, filename, TpmError(tpmResult), 0, 0)]
                 else [AuditRecord(op, filename, HashAdded, 0, 1)])
  {
    result := 0;
    admitted := Admit(st, ns.id, startingId);
    if !admitted {
      return;
    }
    var auditCause, auditInfo;
    result, auditCause, auditInfo := AddAdmitted(st, ns, entry, violation, allocOk, tpmResult);
    st.audit := st.audit + [AuditRecord(op, filename, auditCause, result, auditInfo)];
  }

  /**
   * The admitted part of ima_add_template_entry, up to the audit message:
   * the duplicate check, the append, the cursor advance and the PCR
   * extend, returning the result with the audit cause and info.
   */
  method AddAdmitted(st: QueueState, ns: Namespace, entry: TemplateEntry, violation: bool,
                     allocOk: bool, tpmResult: int)
    returns (result: int, auditCause: AuditCause, auditInfo: int)
    requires st.Valid() && ns.Valid() && WellFormed(entry)
    requires st.chip.Some? ==> st.digests != null
    modifies st`actualId, st`extendCalls
    modifies ns`measurements, ns`len, ns`binaryRuntimeSize, ns`indexed, ns.queue
    ensures st.Valid() && ns.Valid()
    ensures !violation && old(ns.Indexes(HashDigest(entry), entry.pcr)) ==>
              result == -EEXIST && auditCause == HashExists && auditInfo == 1 &&
              ns.measurements == old(ns.measurements) && ns.indexed == old(ns.indexed) &&
              st.extendCalls == old(st.extendCalls) && st.actualId == old(st.actualId)
    ensures (violation || !old(ns.Indexes(HashDigest(entry), entry.pcr))) && !allocOk ==>
              result == -ENOMEM && auditCause == OutOfMemory && auditInfo == 0 &&
              ns.measurements == old(ns.measurements) && ns.indexed == old(ns.indexed) &&
              st.extendCalls == old(st.extendCalls) && st.actualId == old(st.actualId)
    ensures (violation || !old(ns.Indexes(HashDigest(entry), entry.pcr))) && allocOk ==>
              result == 0 &&
              ns.measurements == old(ns.measurements) + [entry] &&
              ns.indexed == old(ns.indexed) + {old(|ns.measurements|)} &&
              st.actualId == (if ns == st.initNs then (old(st.actualId) + 1) % MAX_VETT_QUEUE_LEN else old(st.actualId)) &&
              st.extendCalls == old(st.extendCalls) +
                (if st.chip.Some? then [ExtendCall(entry.pcr, if violation then st.digests[..] else entry.digests)] else []) &&
              (auditCause, auditInfo) == (if st.chip.Some? && tpmResult != 0 then (TpmError(tpmResult), 0) else (HashAdded, 1))
  {
    var found := None;
    if !violation {
      found := LookupDigestEntry(ns, entry.digests[IMA_HASH_ALGO_IDX].digest, entry.pcr);
    }
    if found.Some? {
      return -EEXIST, HashExists, 1;
    }
    result, auditCause, auditInfo := AppendAndExtend(st, ns, entry, violation, allocOk, tpmResult);
  }

  /**
   * The part of ima_add_template_entry after the duplicate check: the
   * append, the cursor advance and the PCR extend.
   */
  method AppendAndExtend(st: QueueState, ns: Namespace, entry: TemplateEntry, violation: bool,
                         allocOk: bool, tpmResult: int)
    returns (result: int, auditCause: AuditCause, auditInfo: int)
    requires st.Valid() && ns.Valid() && WellFormed(entry)
    requires st.chip.Some? ==> st.digests != null
    modifies st`actualId, st`extendCalls
    modifies ns`measurements, ns`len, ns`binaryRuntimeSize, ns`indexed, ns.queue
    ensures st.Valid() && ns.Valid()
    ensures !allocOk ==>
              result == -ENOMEM && auditCause == OutOfMemory && auditInfo == 0 &&
              ns.measurements == old(ns.measurements) && ns.indexed == old(ns.indexed) &&
              st.extendCalls == old(st.extendCalls) && st.actualId == old(st.actualId)
    ensures allocOk ==>
              result == 0 &&
              ns.measurements == old(ns.measurements) + [entry] &&
              ns.indexed == old(ns.indexed) + {old(|ns.measurements|)} &&
              st.actualId == (if ns == st.initNs then (old(st.actualId) + 1) % MAX_VETT_QUEUE_LEN else old(st.actualId)) &&
              st.extendCalls == old(st.extendCalls) +
                (if st.chip.Some? then [ExtendCall(entry.pcr, if violation then st.digests[..] else entry.digests)] else []) &&
              (auditCause, auditInfo) == (if st.chip.Some? && tpmResult != 0 then (TpmError(tpmResult), 0) else (HashAdded, 1))
  {
    result := AddDigestEntry(ns, entry, true, allocOk);
    if result < 0 {
      return result, OutOfMemory, 0;
    }
    if ns == st.initNs {
      st.actualId := (st.actualId + 1) % MAX_VETT_QUEUE_LEN;
    }
    auditCause, auditInfo := ExtendEntry(st, entry, violation, tpmResult);
  }

  /**
   * The extend after a successful add: a violation extends with the
   * pre-filled poison digests, any other entry with its own; a TPM error
   * changes only the audit cause.
   */
  method ExtendEntry(st: QueueState, entry: TemplateEntry, violation: bool, tpmResult: int)
    returns (auditCause: AuditCause, auditInfo: int)
    requires st.chip.Some? ==> st.digests != null
    modifies st`extendCalls
    ensures st.extendCalls == old(st.extendCalls) +
              (if st.chip.Some? then [ExtendCall(entry.pcr, if violation then st.digests[..] else entry.digests)] else [])
    ensures (auditCause, auditInfo) == (if st.chip.Some? && tpmResult != 0 then (TpmError(tpmResult), 0) else (HashAdded, 1))
  {
    var digestsArg := entry.digests;
    auditCause, auditInfo := HashAdded, 1;
    if violation && st.chip.Some? {
      digestsArg := st.digests[..];
    }
    var tpmresult := PcrExtend(st, digestsArg, entry.pcr, tpmResult);
    if tpmresult != 0 {
      auditCause, auditInfo := TpmError(tpmresult), 0;
    }
  }

  // ---------------------------------------------------------------------
  // ima_restore_measurement_entry

  /** Re-appends an entry carried across kexec: listed and counted, never indexed. */
  method RestoreMeasurementEntry(ns: Namespace, entry: TemplateEntry, allocOk: bool) returns (result: int)
    requires ns.Valid() && WellFormed(entry)
    modifies ns`measurements, ns`len, ns`binaryRuntimeSize, ns`indexed, ns.queue
    ensures ns.Valid()
    ensures result == if allocOk then 0 else -ENOMEM
    ensures ns.measurements == if allocOk then old(ns.measurements) + [entry] else old(ns.measurements)
    ensures ns.indexed == old(ns.indexed) && ns.queue[..] == old(ns.queue[..])
  {
    result := AddDigestEntry(ns, entry, false, allocOk);
    assert ns.queue[..] == old(ns.queue[..]);
  }

  // ---------------------------------------------------------------------
  // ima_init_digests

  /** The width ima_init_digests fills: the bank's digest size, or SHA-1's for an unmapped bank. */
  function PoisonWidth(b: TpmBank): nat
  {
    if b.mapped then b.digestSize else SHA1_DIGEST_SIZE
  }

  /** A zeroed tpm_digest of the bank's algorithm with its first PoisonWidth bytes set to 0xff. */
  function PoisonDigest(b: TpmBank): (d: TpmDigest)
    requires PoisonWidth(b) <= TPM_MAX_DIGEST_SIZE
    ensures d.algId == b.algId && |d.digest| == TPM_MAX_DIGEST_SIZE
    ensures forall j :: 0 <= j < TPM_MAX_DIGEST_SIZE ==> d.digest[j] == if j < PoisonWidth(b) then 0xff else 0
  {
    TpmDigest(b.algId, Repeat(0xff, PoisonWidth(b)) + Repeat(0, TPM_MAX_DIGEST_SIZE - PoisonWidth(b)))
  }

  /**
   * Allocates the violation digests, one per TPM bank, and fills each
   * with 0xff over the bank's width. With no chip nothing happens.
   */
  method InitDigests(st: QueueState, allocOk: bool) returns (rc: int)
    requires st.chip.Some? ==> forall i :: 0 <= i < |st.chip.value.banks| ==> PoisonWidth(st.chip.value.banks[i]) <= TPM_MAX_DIGEST_SIZE
    modifies st`digests
    ensures st.chip.None? ==> rc == 0 && st.digests == old(st.digests)
    ensures st.chip.Some? && !allocOk ==> rc == -ENOMEM && st.digests == null
    ensures st.chip.Some? && allocOk ==> (rc == 0 && st.digests != null && fresh(st.digests) &&
              st.digests.Length == |st.chip.value.banks| &&
              forall i :: 0 <= i < st.digests.Length ==> st.digests[i] == PoisonDigest(st.chip.value.banks[i]))
  {
    if st.chip.None? {
      return 0;
    }
    var banks := st.chip.value.banks;
    if !allocOk {
      st.digests := null;
      return -ENOMEM;
    }
    var a := new TpmDigest[|banks|](_ => TpmDigest(0, Repeat(0, TPM_MAX_DIGEST_SIZE)));
    for i := 0 to |banks|
      invariant forall j :: 0 <= j < i ==> a[j] == PoisonDigest(banks[j])
      invariant forall j :: i <= j < |banks| ==> a[j] == TpmDigest(0, Repeat(0, TPM_MAX_DIGEST_SIZE))
    {
      var width := if banks[i].mapped then banks[i].digestSize else SHA1_DIGEST_SIZE;
      var zeroed := a[i].digest;
      assert zeroed[width..] == Repeat(0, TPM_MAX_DIGEST_SIZE - width);
      a[i] := TpmDigest(banks[i].algId, Repeat(0xff, width) + zeroed[width..]);
    }
    st.digests := a;
    rc := 0;
  }

  // ---------------------------------------------------------------------
  // A client: appending D1, D2, D1

  /**
   * A writer of init_ima_ns that registers while the ring is drained is
   * admitted at once. Its entry is added, extends the PCR and leaves the
   * ring drained again; or it is refused as a duplicate, and then actual_id
   * stays behind next_empty_slot by one slot.
   */
  method AddWhenDrained(st: QueueState, ns: Namespace, entry: TemplateEntry) returns (result: int)
    requires st.Valid() && ns.Valid() && WellFormed(entry)
    requires st.chip.Some? && st.digests != null
    requires ns == st.initNs && st.actualId == st.nextEmptySlot
    modifies st`actualId, st`nextEmptySlot, st`extendCalls, st`audit, st.vettQueue
    modifies ns`measurements, ns`len, ns`binaryRuntimeSize, ns`indexed, ns.queue
    ensures st.Valid() && ns.Valid()
    ensures old(ns.Indexes(HashDigest(entry), entry.pcr)) ==>
              result == -EEXIST && ns.measurements == old(ns.measurements) &&
              ns.indexed == old(ns.indexed) && st.extendCalls == old(st.extendCalls) &&
              st.actualId == old(st.actualId) && st.nextEmptySlot == (st.actualId + 1) % MAX_VETT_QUEUE_LEN
    ensures !old(ns.Indexes(HashDigest(entry), entry.pcr)) ==>
              result == 0 && st.actualId == st.nextEmptySlot &&
              ns.measurements == old(ns.measurements) + [entry] &&
              ns.indexed == old(ns.indexed) + {old(|ns.measurements|)} &&
              |st.extendCalls| == old(|st.extendCalls|) + 1
  {
    var admitted;
    result, admitted := AddTemplateEntry(st, ns, entry, false, [], [], ns.id, true, 0);
    assert admitted;
  }

  /** A fresh init_ima_ns with a TPM, after D1 and D2 were added to it. */
  method TwoEntries(d1: TemplateEntry, d2: TemplateEntry, banks: seq<TpmBank>)
    returns (st: QueueState, ns: Namespace)
    requires WellFormed(d1) && WellFormed(d2)
    requires HashDigest(d1) != HashDigest(d2) || d1.pcr != d2.pcr
    requires forall i :: 0 <= i < |banks| ==> PoisonWidth(banks[i]) <= TPM_MAX_DIGEST_SIZE
    ensures fresh(st) && fresh(st.vettQueue) && fresh(ns) && fresh(ns.queue)
    ensures st.Valid() && ns.Valid() && st.chip.Some? && st.digests != null
    ensures ns == st.initNs && st.actualId == st.nextEmptySlot
    ensures ns.indexed == {0, 1} && ns.measurements == [d1, d2] && |st.extendCalls| == 2
  {
    ns := new Namespace(0, 2);
    st := new QueueState(Some(TpmChip(banks)), ns);
    var rc := InitDigests(st, true);

    var r1 := AddWhenDrained(st, ns, d1);
    assert ns.indexed == {0} && ns.measurements == [d1] && |st.extendCalls| == 1;
    assert !ns.Indexes(HashDigest(d2), d2.pcr);

    var r2 := AddWhenDrained(st, ns, d2);
  }

  /**
   * In a fresh init_ima_ns with a TPM, adding D1, D2 and D1 again leaves
   * two entries, extends the PCR twice, refuses the third with -EEXIST
   * (after which actual_id lags next_empty_slot), and a lookup of D1 finds
   * the first entry.
   */
  method DuplicateScenario(d1: TemplateEntry, d2: TemplateEntry, banks: seq<TpmBank>)
    returns (logLength: nat, extendCount: nat, third: int, lookup: Option<nat>, lagging: bool)
    requires WellFormed(d1) && WellFormed(d2)
    requires HashDigest(d1) != HashDigest(d2) || d1.pcr != d2.pcr
    requires forall i :: 0 <= i < |banks| ==> PoisonWidth(banks[i]) <= TPM_MAX_DIGEST_SIZE
    ensures logLength == 2 && extendCount == 2 && third == -EEXIST && lookup == Some(0) && lagging
  {
    var st, ns := TwoEntries(d1, d2, banks);
    assert ns.Indexes(HashDigest(d1), d1.pcr) by {
      assert 0 in ns.indexed && ns.measurements[0] == d1;
    }
    third := AddWhenDrained(st, ns, d1);
    logLength, extendCount, lagging := |ns.measurements|, |st.extendCalls|, st.actualId != st.nextEmptySlot;
    lookup := LookupFirstOfTwo(ns, d1, d2);
  }

  /** With the log [D1, D2], both indexed, a lookup of D1 finds entry 0. */
  method LookupFirstOfTwo(ns: Namespace, d1: TemplateEntry, d2: TemplateEntry) returns (lookup: Option<nat>)
    requires ns.Valid() && WellFormed(d1) && WellFormed(d2)
    requires HashDigest(d1) != HashDigest(d2) || d1.pcr != d2.pcr
    requires ns.measurements == [d1, d2] && 0 in ns.indexed
    ensures lookup == Some(0)
  {
    OnlyFirstMatches(d1, d2);
    lookup := LookupDigestEntry(ns, d1.digests[IMA_HASH_ALGO_IDX].digest, d1.pcr);
    assert lookup.Some? by {
      assert ns.measurements[0] == d1;
    }
  }

  /** Of two entries that differ in digest or pcr, only the first matches a lookup of the first. */
  lemma OnlyFirstMatches(d1: TemplateEntry, d2: TemplateEntry)
    requires WellFormed(d1) && WellFormed(d2)
    requires HashDigest(d1) != HashDigest(d2) || d1.pcr != d2.pcr
    ensures EntryMatches(d1, d1.digests[IMA_HASH_ALGO_IDX].digest, d1.pcr)
    ensures !EntryMatches(d2, d1.digests[IMA_HASH_ALGO_IDX].digest, d1.pcr)
  {
  }
}
