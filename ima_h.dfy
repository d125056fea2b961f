/**
 * The data layout of the namespaced Integrity Measurement Architecture:
 * template entries, the per-namespace measurement list and digest hash
 * table, the kexec header, and the small pure helpers the list engine and
 * the securityfs readers share (bucket function, hook names, namespace
 * activity test, and the split of inode flags between the shared
 * integrity cache and the per-namespace status).
 *
 * Configuration fixed by this model: the hash table is enabled, the TPM
 * has two allocated banks (SHA-1 at slot IMA_SHA1_IDX and SHA-256 at slot
 * IMA_HASH_ALGO_IDX, which is also ima_hash_algo), and every tpm_digest
 * holds TPM_MAX_DIGEST_SIZE bytes.
 */
module Ima {
  import opened Bytes

  const IMA_HASH_BITS: nat := 10
  /** 1 << IMA_HASH_BITS buckets. */
  const IMA_MEASURE_HTABLE_SIZE: nat := 1024

  const SHA1_DIGEST_SIZE: nat := 20
  const TPM_DIGEST_SIZE: nat := 20
  const TPM_MAX_DIGEST_SIZE: nat := 64

  /** Digest slots of an entry: one per allocated TPM bank. */
  const NR_DIGEST_SLOTS: nat := 2
  const IMA_SHA1_IDX: nat := 0
  const IMA_HASH_ALGO_IDX: nat := 1
  /** hash_digest_size[ima_hash_algo] for SHA-256. */
  const IMA_HASH_DIGEST_SIZE: nat := 32

  const U32_LIMIT: nat := 0x1_0000_0000
  const ULONG_MAX: nat := 0xFFFF_FFFF_FFFF_FFFF

  const ENOMEM: int := 12
  const EACCES: int := 13
  const EBUSY: int := 16
  const EEXIST: int := 17
  const EINVAL: int := 22

  // ---------------------------------------------------------------------
  // Template entries

  datatype TpmDigest = TpmDigest(algId: nat, digest: seq<byte>)

  /** A template descriptor: its name, its format string and its field ids. */
  datatype TemplateDesc = TemplateDesc(name: seq<byte>, fmt: seq<byte>, fieldIds: seq<seq<byte>>)

  datatype FieldData = FieldData(data: seq<byte>, len: nat)

  /** struct ima_template_entry: one measurement, immutable once logged. */
  datatype TemplateEntry = TemplateEntry(
    pcr: int,
    digests: seq<TpmDigest>,
    desc: TemplateDesc,
    templateDataLen: nat,
    templateData: seq<FieldData>)

  /**
   * What the C types guarantee of an entry: a digest buffer of
   * TPM_MAX_DIGEST_SIZE bytes per slot, one data item per template field,
   * 32-bit lengths and C strings whose length fits a 32-bit field.
   */
  predicate WellFormed(e: TemplateEntry)
  {
    |e.digests| == NR_DIGEST_SLOTS &&
    (forall i :: 0 <= i < |e.digests| ==> |e.digests[i].digest| == TPM_MAX_DIGEST_SIZE) &&
    |e.templateData| == |e.desc.fieldIds| &&
    e.templateDataLen < U32_LIMIT &&
    |e.desc.name| < U32_LIMIT && |e.desc.fmt| < U32_LIMIT
  }

  /** The digest a lookup compares: the ima_hash_algo slot, cut to its size. */
  function HashDigest(e: TemplateEntry): seq<byte>
    requires WellFormed(e)
  {
    e.digests[IMA_HASH_ALGO_IDX].digest[..IMA_HASH_DIGEST_SIZE]
  }

  // ---------------------------------------------------------------------
  // ima_hash_key

  /**
   * The bucket of a digest: `digest[0] | digest[1] << 8` modulo the table
   * size. The two bytes do not overlap, so the OR is a sum.
   */
  function HashKey(digest: seq<byte>): (r: nat)
    requires |digest| >= 2
    ensures r < IMA_MEASURE_HTABLE_SIZE
    ensures r == digest[0] as int + 256 * (digest[1] as int % 4)
  {
    var d0, d1 := digest[0] as int, digest[1] as int;
    assert d0 + d1 * 256 == (d0 + 256 * (d1 % 4)) + 1024 * (d1 / 4);
    (d0 + d1 * 256) % IMA_MEASURE_HTABLE_SIZE
  }

  /** The bucket depends on the first byte and the two low bits of the second only. */
  lemma HashKeyPrefix(d1: seq<byte>, d2: seq<byte>)
    requires |d1| >= 2 && |d2| >= 2
    requires d1[0] == d2[0] && d1[1] % 4 == d2[1] % 4
    ensures HashKey(d1) == HashKey(d2)
  {
  }

  function KeyOf(e: TemplateEntry): nat
    requires WellFormed(e)
  {
    HashKey(e.digests[IMA_HASH_ALGO_IDX].digest)
  }

  // ---------------------------------------------------------------------
  // func_measure_str

  /** The hooks of __ima_hooks, in enumeration order; MAX_CHECK reuses "none". */
  const HOOK_NAMES: seq<string> := [
    "none", "file", "mmap", "bprm", "creds", "post_setattr", "module",
    "firmware", "kexec_kernel", "kexec_initramfs", "policy", "kexec_cmdline",
    "key", "critical_data", "setxattr_check", "none"]

  const NONE: nat := 0
  const MAX_CHECK: nat := 15

  /** ima_hooks_measure_str[i]. */
  function MeasureStr(i: nat): string
    requires i < |HOOK_NAMES|
  {
    "measuring_" + HOOK_NAMES[i]
  }

  /** The measuring_ string of a hook; any value from MAX_CHECK on maps to NONE's. */
  function FuncMeasureStr(func: nat): (r: string)
    ensures func >= MAX_CHECK ==> r == "measuring_none"
    ensures func < MAX_CHECK ==> r == MeasureStr(func)
    ensures r[..10] == "measuring_"
  {
    if func >= MAX_CHECK then MeasureStr(NONE) else MeasureStr(func)
  }

  /** Every hook below MAX_CHECK has its own string. */
  lemma FuncMeasureStrInjective(a: nat, b: nat)
    requires a < MAX_CHECK && b < MAX_CHECK && a != b
    ensures FuncMeasureStr(a) != FuncMeasureStr(b)
  {
    assert FuncMeasureStr(a)[10..] == HOOK_NAMES[a];
    assert FuncMeasureStr(b)[10..] == HOOK_NAMES[b];
    HookNameTells(a);
    HookNameTells(b);
  }

  /** The hook a name below MAX_CHECK belongs to, told apart by its length and first letter. */
  function HookOfName(name: string): int
  {
    if name == [] then -1
    else
      match (|name|, name[0])
      case (4, 'n') => 0
      case (4, 'f') => 1
      case (4, 'm') => 2
      case (4, 'b') => 3
      case (5, _) => 4
      case (12, 'p') => 5
      case (6, 'm') => 6
      case (8, _) => 7
      case (12, 'k') => 8
      case (15, _) => 9
      case (6, 'p') => 10
      case (13, 'k') => 11
      case (3, _) => 12
      case (13, 'c') => 13
      case (14, _) => 14
      case _ => -1
  }

  lemma HookNameTells(i: nat)
    requires i < MAX_CHECK
    ensures HookOfName(HOOK_NAMES[i]) == i
  {
  }

  // ---------------------------------------------------------------------
  // struct ima_kexec_hdr

  datatype KexecHdr = KexecHdr(version: nat, reserved0: nat, reserved1: nat, bufferSize: nat, count: nat)

  /** The header's bytes, field after field with no padding: u16, u16, u32, u64, u64. */
  function KexecHdrBytes(h: KexecHdr, little: bool): seq<byte>
  {
    var field := (x: nat, n: nat) => if little then LittleEndian(x, n) else Reverse(LittleEndian(x, n));
    field(h.version, 2) + field(h.reserved0, 2) + field(h.reserved1, 4) + field(h.bufferSize, 8) + field(h.count, 8)
  }

  const KEXEC_HDR_SIZE: nat := 24

  /** sizeof(struct ima_kexec_hdr), the overhead added by the size query. */
  lemma KexecHdrSize(h: KexecHdr, little: bool)
    ensures |KexecHdrBytes(h, little)| == KEXEC_HDR_SIZE
  {
  }

  // ---------------------------------------------------------------------
  // Serialised size accounting (get_binary_runtime_size)

  /**
   * Bytes accounted for one entry in the binary list: pcr (u32), the
   * TPM_DIGEST_SIZE template digest, the name-size field, the descriptor's
   * name, the data-length field and the data. The sum is taken over
   * unbounded integers; the 32-bit `int` the C code sums into is modelled
   * separately (see ImaQueue.EntrySizeAsWritten).
   */
  function EntrySize(e: TemplateEntry): nat
  {
    4 + TPM_DIGEST_SIZE + 4 + |e.desc.name| + 4 + e.templateDataLen
  }

  function TotalSize(log: seq<TemplateEntry>): nat
  {
    if log == [] then 0 else TotalSize(log[..|log| - 1]) + EntrySize(log[|log| - 1])
  }

  lemma TotalSizeAppend(log: seq<TemplateEntry>, e: TemplateEntry)
    ensures TotalSize(log + [e]) == TotalSize(log) + EntrySize(e)
  {
    assert (log + [e])[..|log|] == log;
  }

  // ---------------------------------------------------------------------
  // The digest hash table as values

  ghost predicate AllWellFormed(log: seq<TemplateEntry>)
  {
    forall i :: 0 <= i < |log| ==> WellFormed(log[i])
  }

  /**
   * The hash table over a list: `indexed` is the set of list positions the
   * chains hold; each indexed position sits in the chain of its entry's
   * bucket, each chain holds indexed positions of entries of its bucket
   * only, and each chain runs from the newest position to the oldest
   * (entries are linked at the head).
   */
  ghost predicate TableValid(log: seq<TemplateEntry>, indexed: set<nat>, q: seq<seq<nat>>)
    requires AllWellFormed(log)
  {
    |q| == IMA_MEASURE_HTABLE_SIZE && TableIndexed(log, indexed, q) && TableLinks(log, indexed, q) && TableOrdered(q)
  }

  /** Every indexed position is a list entry linked in its own bucket. */
  ghost predicate TableIndexed(log: seq<TemplateEntry>, indexed: set<nat>, q: seq<seq<nat>>)
    requires AllWellFormed(log) && |q| == IMA_MEASURE_HTABLE_SIZE
  {
    forall i :: i in indexed ==> i < |log| && i in q[KeyOf(log[i])]
  }

  /** Every link names an indexed list entry hashing to its bucket. */
  ghost predicate TableLinks(log: seq<TemplateEntry>, indexed: set<nat>, q: seq<seq<nat>>)
    requires AllWellFormed(log)
  {
    forall k, p :: 0 <= k < |q| && 0 <= p < |q[k]| ==>
      q[k][p] in indexed && q[k][p] < |log| && KeyOf(log[q[k][p]]) == k
  }

  /** Each chain lists newer entries first. */
  ghost predicate TableOrdered(q: seq<seq<nat>>)
  {
    forall k, p, p' :: 0 <= k < |q| && 0 <= p < p' < |q[k]| ==> q[k][p] > q[k][p']
  }

  /** Some indexed entry has this digest and this pcr. */
  ghost predicate TableHas(log: seq<TemplateEntry>, indexed: set<nat>, digest: seq<byte>, pcr: int)
    requires AllWellFormed(log)
  {
    exists i :: i in indexed && i < |log| && HashDigest(log[i]) == digest && log[i].pcr == pcr
  }

  /** Appending an entry that the table does not link keeps the table valid. */
  lemma TablePushUnlinked(log: seq<TemplateEntry>, indexed: set<nat>, q: seq<seq<nat>>, e: TemplateEntry)
    requires AllWellFormed(log) && WellFormed(e) && TableValid(log, indexed, q)
    ensures AllWellFormed(log + [e])
    ensures TableValid(log + [e], indexed, q)
  {
    var log' := log + [e];
    assert forall i :: 0 <= i < |log| ==> log'[i] == log[i];
  }

  /** Appending an entry and linking it at the head of its bucket keeps the table valid. */
  lemma TablePushLinked(log: seq<TemplateEntry>, indexed: set<nat>, q: seq<seq<nat>>, e: TemplateEntry)
    requires AllWellFormed(log) && WellFormed(e) && TableValid(log, indexed, q)
    ensures AllWellFormed(log + [e])
    ensures TableValid(log + [e], indexed + {|log|}, q[KeyOf(e) := [|log|] + q[KeyOf(e)]])
  {
    PushIndexed(log, indexed, q, e);
    PushLinks(log, indexed, q, e);
    PushOrdered(q, KeyOf(e), |log|);
  }

  lemma PushIndexed(log: seq<TemplateEntry>, indexed: set<nat>, q: seq<seq<nat>>, e: TemplateEntry)
    requires AllWellFormed(log) && WellFormed(e) && |q| == IMA_MEASURE_HTABLE_SIZE && TableIndexed(log, indexed, q)
    ensures AllWellFormed(log + [e])
    ensures TableIndexed(log + [e], indexed + {|log|}, q[KeyOf(e) := [|log|] + q[KeyOf(e)]])
  {
    var log', n, key := log + [e], |log|, KeyOf(e);
    assert forall i :: 0 <= i < n ==> log'[i] == log[i];
    var indexed', q' := indexed + {n}, q[key := [n] + q[key]];
    forall i | i in indexed' ensures i < |log'| && i in q'[KeyOf(log'[i])] {
      if i != n {
        assert i in q[KeyOf(log[i])];
      }
    }
  }

  lemma PushLinks(log: seq<TemplateEntry>, indexed: set<nat>, q: seq<seq<nat>>, e: TemplateEntry)
    requires AllWellFormed(log) && WellFormed(e) && |q| == IMA_MEASURE_HTABLE_SIZE && TableLinks(log, indexed, q)
    ensures AllWellFormed(log + [e])
    ensures TableLinks(log + [e], indexed + {|log|}, q[KeyOf(e) := [|log|] + q[KeyOf(e)]])
  {
    var log', n, key := log + [e], |log|, KeyOf(e);
    assert forall i :: 0 <= i < n ==> log'[i] == log[i];
    var indexed', q' := indexed + {n}, q[key := [n] + q[key]];
    forall k, p | 0 <= k < |q'| && 0 <= p < |q'[k]|
      ensures q'[k][p] in indexed' && q'[k][p] < |log'| && KeyOf(log'[q'[k][p]]) == k
    {
      if k == key && p > 0 {
        assert q'[k][p] == q[k][p - 1];
      }
    }
  }

  /** Linking a position larger than every linked one at a bucket's head keeps the chains ordered. */
  lemma PushOrdered(q: seq<seq<nat>>, key: nat, n: nat)
    requires key < |q| && TableOrdered(q)
    requires forall p :: 0 <= p < |q[key]| ==> q[key][p] < n
    ensures TableOrdered(q[key := [n] + q[key]])
  {
    var q' := q[key := [n] + q[key]];
    forall k, p, p' | 0 <= k < |q'| && 0 <= p < p' < |q'[k]| ensures q'[k][p] > q'[k][p'] {
      if k == key {
        assert q'[k][p'] == q[k][p' - 1];
        if p > 0 {
          assert q'[k][p] == q[k][p - 1];
        }
      }
    }
  }

  // ---------------------------------------------------------------------
  // struct ima_namespace

  /** Bit numbers in ima_ns_flags. */
  const IMA_NS_LSM_UPDATE_RULES: bv64 := 0
  const IMA_NS_ACTIVE: bv64 := 1

  function TestBit(flags: bv64, bit: bv64): bool
    requires bit < 64
  {
    (flags >> bit) & 1 == 1
  }

  /**
   * One IMA namespace: its measurement list (ima_measurements), the digest
   * hash table (ima_htable), the serialised-size tally and the securityfs
   * policy state. A hash chain holds positions in the measurement list,
   * newest first.
   */
  class Namespace {
    var nsFlags: bv64
    const id: int

    var measurements: seq<TemplateEntry>
    /** ima_htable.queue: one chain per bucket. */
    const queue: array<seq<nat>>
    /** ima_htable.len */
    var len: nat
    /** ima_htable.violations */
    var violations: nat
    var binaryRuntimeSize: nat

    var fsFlags: bv64
    var validPolicy: int

    /** Positions of the list that a hash chain holds. */
    ghost var indexed: set<nat>
    /** Calls of ima_delete_rules and ima_update_policy, whose bodies are not modelled. */
    ghost var rulesDeleted: nat
    ghost var policyUpdates: nat

    ghost predicate Valid()
      reads this, queue
    {
      queue.Length == IMA_MEASURE_HTABLE_SIZE &&
      len == |measurements| &&
      AllWellFormed(measurements) &&
      binaryRuntimeSize == Min(TotalSize(measurements), ULONG_MAX) &&
      TableValid(measurements, indexed, queue[..])
    }

    /** An entry with this digest and pcr is in the hash table. */
    ghost predicate Indexes(digest: seq<byte>, pcr: int)
      reads this
      requires AllWellFormed(measurements)
    {
      TableHas(measurements, indexed, digest, pcr)
    }

    /** A namespace as it is set up: empty list, empty table, zero tally. */
    constructor (id: int, nsFlags: bv64)
      ensures Valid() && fresh(queue)
      ensures this.id == id && this.nsFlags == nsFlags
      ensures measurements == [] && indexed == {} && binaryRuntimeSize == 0 && violations == 0
      ensures fsFlags == 0 && validPolicy == 1
    {
      this.id := id;
      this.nsFlags := nsFlags;
      measurements := [];
      queue := new seq<nat>[IMA_MEASURE_HTABLE_SIZE](_ => []);
      len := 0;
      violations := 0;
      binaryRuntimeSize := 0;
      fsFlags := 0;
      validPolicy := 1;
      indexed := {};
      rulesDeleted := 0;
      policyUpdates := 0;
    }
  }

  /** ns_is_active: a namespace exists and has its IMA_NS_ACTIVE bit set. */
  function NsIsActive(ns: Namespace?): (r: bool)
    reads ns
    ensures ns == null ==> !r
    ensures ns != null ==> (r <==> TestBit(ns.nsFlags, IMA_NS_ACTIVE))
  {
    ns != null && ns.nsFlags & (1 << IMA_NS_ACTIVE) != 0
  }

  // ---------------------------------------------------------------------
  // Inode flags split between integrity_iint_cache and ns_status

  /** IMA_AUDIT | IMA_AUDITED (0x40 and 0x80 in integrity.h). */
  const IMA_NS_STATUS_FLAGS: bv64 := 0xC0

  class IintCache {
    var flags: bv64
    constructor (flags: bv64) ensures this.flags == flags { this.flags := flags; }
  }

  class NsStatus {
    var flags: bv64
    constructor (flags: bv64) ensures this.flags == flags { this.flags := flags; }
  }

  /** The flags of an inode as a namespace sees them. */
  function IintFlags(iint: IintCache, nsStatus: NsStatus?): (r: bv64)
    reads iint, nsStatus
    ensures nsStatus == null ==> r == iint.flags
    ensures nsStatus != null ==> r & IMA_NS_STATUS_FLAGS == nsStatus.flags & IMA_NS_STATUS_FLAGS
    ensures nsStatus != null ==> r & !IMA_NS_STATUS_FLAGS == iint.flags & !IMA_NS_STATUS_FLAGS
  {
    if nsStatus == null then iint.flags
    else (iint.flags & !IMA_NS_STATUS_FLAGS) | (nsStatus.flags & IMA_NS_STATUS_FLAGS)
  }

  /**
   * Stores flags: the per-namespace bits go to nsStatus (when there is
   * one), all other bits to the shared cache; the argument is returned.
   */
  method SetIintFlags(iint: IintCache, nsStatus: NsStatus?, flags: bv64) returns (r: bv64)
    modifies iint, nsStatus
    ensures r == flags
    ensures iint.flags == flags & !IMA_NS_STATUS_FLAGS
    ensures nsStatus != null ==> nsStatus.flags == flags & IMA_NS_STATUS_FLAGS
    ensures nsStatus != null ==> IintFlags(iint, nsStatus) == flags
  {
    var nsStatusFlags := flags & IMA_NS_STATUS_FLAGS;
    iint.flags := flags & !IMA_NS_STATUS_FLAGS;
    if nsStatus != null {
      nsStatus.flags := nsStatusFlags;
    }
    r := flags;
  }

  /** Splitting flags and merging them again gives the flags back. */
  lemma IintFlagsRoundTrip(flags: bv64, m: bv64)
    ensures (flags & !m) | (flags & m) == flags
    ensures ((flags & !m) | (flags & m)) & m == flags & m
  {
  }
}
