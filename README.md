# IMA namespaces: the measurement-list engine, its readers and its checkers

This project is a Dafny model of the core of a Linux kernel fork that gives
each IMA (Integrity Measurement Architecture) namespace its own list of
measurements. The model covers:

- **The engine** (`ima_queue.c`, module `ImaQueue`):
  - an append-only list of template entries per namespace, plus a 1024-bucket digest hash table that refuses duplicates;
  - a size tally that saturates at `ULONG_MAX`;
  - the PCR extend, which uses pre-filled all-`0xff` "poison" digests for violations;
  - the global admission ring `vett_queue`, with its cursors `actual_id` and `next_empty_slot`.
- **The data layout and pure helpers** (`ima.h`, module `Ima`): template entries, the namespace, the bucket function, the hook names, the activity test, the kexec header, and the split of inode flags between the shared integrity cache and the per-namespace status.
- **The securityfs side** (`ima_fs.c`, module `ImaFs`):
  - the positional iterator over the list;
  - the binary and ASCII record writers;
  - the validation chains of the `active` and `policy` files and their busy flag;
  - the rule loop of policy loading.
- **The replay script** (`check_PCR10.py`, module `CheckPcr10`). It reads the ASCII list line by line and extends a running SHA-1 value. A zero template hash becomes `0xff…ff`, mirroring the kernel's poison rule. A per-namespace virtual PCR is extended from `ima-dig-imaid` lines. The script stops at the first line after which the running value equals the expected PCR 10.
- **The namespace tree** (`tree_lib.py`, module `TreeLib`): nodes with children, a parent pointer and a status.
- **The debug hex printer** (`ima_utils.c`, module `ImaUtils`): upper-case hex written into a 1024-byte stack buffer.

Module `Bytes` holds the shared byte-level pieces: bytes, fixed-width integers in either byte order, hexadecimal in both cases, and the hex decoder.

The model uses one configuration:
- the hash table is enabled;
- two TPM banks: SHA-1 at slot 0 and SHA-256 at slot 1, where slot 1 is `ima_hash_algo` and is compared over 32 bytes;
- `CONFIG_IMA_WRITE_POLICY` is on and `CONFIG_IMA_READ_POLICY` is off.

`IMA_AUDIT` and `IMA_AUDITED` take their upstream values, 0x40 and 0x80; `integrity.h` is not part of this model.

The state the kernel updates in place is modelled as Dafny classes:
- `Ima.Namespace`: the list is a `seq`, the bucket heads an `array` of chains of list positions, plus the counters;
- `ImaQueue.QueueState`: the `vett_queue` array, its cursors, the poison digests, and records of TPM extends and audit messages;
- `ImaFs.SeqFile`: the bytes a seq_file has accumulated;
- `TreeLib.Node`.

Foreign calls become parameters:
- `kmalloc`/`kcalloc` outcomes and the `tpm_pcr_extend` return code;
- the template `field_show` callbacks;
- `ima_parse_add_rule`, `ima_check_policy` and `ima_init_namespace`;
- the file read and user copies;
- SHA-1 in the script, as an uninterpreted function `H`.

Behaviours of the code that the model makes explicit:
- **Ring overflow.** The admission ring wraps modulo 1024 and overwrites the oldest slot; nothing detects a 1025th outstanding registration (`ImaQueue.RingOverwritesFirst`).
- **Admission wait.** The spin at `ima_queue.c:182` has no bound; `ImaQueue.AddTemplateEntry` reports a caller still spinning as `admitted == false`.
- **Binary record layout.** `ima_measurements_show` computes the pcr but never writes it (`ImaFs.PcrNotEmitted`).
- **Size tally.** The tally counts a 4-byte pcr field that the binary record lacks (`ImaFs.AccountedVersusEmitted`).
- **Policy files without a final newline.** The buffer `kernel_read_file_from_path` fills ends with the file and no NUL, so on a last line without a newline `strsep` reads on past the buffer. The size then wraps, and loading fails with -EINVAL whatever lies after the buffer (`ImaFs.ReadPolicyNeedsFinalNewline`).
- **Refused duplicate.** A duplicate refused in `init_ima_ns` has registered in the ring but does not advance `actual_id`. The live cursor then lags the next free slot (`ImaQueue.DuplicateScenario`).

## Model

| member | source | states |
|---|---|---|
| Ima.HashKey | security/integrity/ima/ima.h:240-244 | the bucket is below IMA_MEASURE_HTABLE_SIZE (1024) and equals digest[0] + 256·(digest[1] mod 4), i.e. (digest[0] \| digest[1] << 8) mod 1024 |
| Ima.HashKeyPrefix | security/integrity/ima/ima.h:243 | two digests that agree on the first byte and the two low bits of the second share a bucket; nothing else of the digest matters |
| Ima.FuncMeasureStr | security/integrity/ima/ima.h:277-283 | any func ≥ MAX_CHECK gives "measuring_none", any other the hook's own "measuring_" string |
| Ima.FuncMeasureStrInjective | security/integrity/ima/ima.h:246-275 | distinct hooks below MAX_CHECK have distinct strings |
| Ima.KexecHdrSize | security/integrity/ima/ima.h:117-123 | the kexec header is 2+2+4+8+8 = 24 bytes in either byte order |
| Ima.TablePushUnlinked | security/integrity/ima/ima.h:125-129 | appending an entry that no chain links keeps the hash table valid (every indexed position in its bucket, every link to an entry of that bucket, chains newest first) |
| Ima.TablePushLinked | security/integrity/ima/ima.h:125-129 | appending an entry and linking its position at the head of its bucket keeps the hash table valid, with the new position indexed |
| Ima.Namespace.constructor | security/integrity/ima/ima.h:131-167 | a new namespace has an empty list, an empty table, a zero tally and a valid policy |
| Ima.NsIsActive | security/integrity/ima/ima.h:170-173 | false for no namespace, otherwise exactly the IMA_NS_ACTIVE bit |
| Ima.IintFlags | security/integrity/ima/ima.h:530-538 | without ns_status the cache's flags; otherwise the IMA_NS_STATUS_FLAGS bits from ns_status and every other bit from the cache |
| Ima.SetIintFlags | security/integrity/ima/ima.h:540-552 | the cache keeps all bits but IMA_NS_STATUS_FLAGS, ns_status (when present) exactly those bits, flags is returned, and reading back through IintFlags gives flags |
| Ima.IintFlagsRoundTrip | security/integrity/ima/ima.h:530-552 | splitting flags by a mask and merging the parts gives the flags back |
| ImaQueue.QueueState.constructor | security/integrity/ima/ima_queue.c:25-30 | the static ring and cursors start zeroed and no poison digests are allocated |
| ImaQueue.MatchSameBucket | security/integrity/ima/ima_queue.c:50-55 | an entry matching the looked-up digest and pcr lies in the bucket of that digest |
| ImaQueue.LookupDigestEntry | security/integrity/ima/ima_queue.c:41-62 | walking only bucket HashKey(digest), it returns an indexed entry with that digest and pcr, the newest such entry, and nothing exactly when the table holds no match |
| ImaQueue.LookupFirstOfTwo | security/integrity/ima/ima_queue.c:41-62 | with the list [D1, D2] and D1 indexed, looking up D1 finds entry 0 |
| ImaQueue.AccountEntry | security/integrity/ima/ima_queue.c:114-122 | the tally never decreases, stays at ULONG_MAX once there, and otherwise grows by exactly the entry size or saturates, never wrapping: it is min(tally + size, ULONG_MAX) |
| ImaQueue.AccountEntryExact | security/integrity/ima/ima_queue.c:114-122 | saturating step by step equals saturating the exact sum of all entry sizes |
| ImaQueue.EntrySizeAsWritten | security/integrity/ima/ima_queue.c:69-80 | the size summed into a 32-bit int: in int range and equal to the exact size while that fits |
| ImaQueue.EntrySizeWraps | security/integrity/ima/ima_queue.c:115-121 | an entry with 2^31 data bytes: the int size is negative and the tally jumps to 2^64 − 2^31 + 38 instead of growing by 2^31 + 38 |
| ImaQueue.GetBinaryRuntimeSize | security/integrity/ima/ima_queue.c:132-139 | the query is min(exact size of all entries + 24, ULONG_MAX) |
| ImaQueue.GetBinaryRuntimeSizeMonotone | security/integrity/ima/ima_queue.c:132-139 | the query never decreases when the list grows |
| ImaQueue.AddDigestEntry | security/integrity/ima/ima_queue.c:88-124 | on allocation failure -ENOMEM and nothing changes; otherwise 0, the entry appended after the old list, the count up by one, the tally stepped, and its position at the head of its bucket exactly when update_htable holds; the table invariant is kept |
| ImaQueue.PcrExtend | security/integrity/ima/ima_queue.c:141-152 | with no chip a successful no-op; otherwise one extend call with the given digests, returning the TPM's code |
| ImaQueue.RegisterAllCursor | security/integrity/ima/ima_queue.c:177-178 | after n registrations the cursor is the start plus n modulo 1024 |
| ImaQueue.RegisterAllSlots | security/integrity/ima/ima_queue.c:177-178 | each of the last 1024 registrations sits in slot (start + rank) mod 1024 |
| ImaQueue.RingOverwritesFirst | security/integrity/ima/ima_queue.c:177-178 | the 1025th registration overwrites the first one's slot; nothing detects the overflow |
| ImaQueue.Admit | security/integrity/ima/ima_queue.c:174-182 | a namespace starting the addition registers its id and advances the cursor mod 1024, any other leaves the ring alone; it may proceed exactly when the live slot holds starting_ima_ns_id |
| ImaQueue.AddTemplateEntry | security/integrity/ima/ima_queue.c:162-223 | registration as in Admit; a caller not admitted changes nothing else; an admitted non-violation whose digest and pcr are indexed gets -EEXIST with no append and no extend; allocation failure gets -ENOMEM; otherwise the entry is appended and indexed, init_ima_ns advances actual_id, the PCR is extended with the entry's digests or the poison digests for a violation, and a TPM error changes only the audit cause while the result stays 0; exactly one audit record per admitted call |
| ImaQueue.AddAdmitted | security/integrity/ima/ima_queue.c:184-217 | the admitted part: duplicate, allocation failure and success cases with their audit cause and info |
| ImaQueue.AppendAndExtend | security/integrity/ima/ima_queue.c:195-217 | after the duplicate check: the append, the cursor advance for init_ima_ns, and the extend |
| ImaQueue.ExtendEntry | security/integrity/ima/ima_queue.c:208-217 | a violation extends with the poison digests, any other entry with its own; a TPM error gives the cause TPM_error with info 0 |
| ImaQueue.RestoreMeasurementEntry | security/integrity/ima/ima_queue.c:225-234 | a restored entry is appended and counted but never indexed; -ENOMEM leaves the list as it was |
| ImaQueue.PoisonDigest | security/integrity/ima/ima_queue.c:250-260 | a poison digest has the bank's algorithm and is 0xff over the bank's width (SHA-1's for an unmapped bank) and zero after it |
| ImaQueue.InitDigests | security/integrity/ima/ima_queue.c:236-263 | no chip: 0 and nothing allocated; failed allocation: -ENOMEM; otherwise one poison digest per bank, in bank order |
| ImaQueue.AddWhenDrained | security/integrity/ima/ima_queue.c:162-223 | a writer of init_ima_ns that registers on a drained ring is admitted: a new entry is added and the ring drains again; a duplicate is refused and actual_id stays one behind next_empty_slot |
| ImaQueue.TwoEntries | security/integrity/ima/ima_queue.c:162-223 | adding two different entries to a fresh init_ima_ns with a TPM logs both, indexes both and extends twice |
| ImaQueue.DuplicateScenario | security/integrity/ima/ima_queue.c:185-193 | adding D1, D2, D1 leaves two entries and two extends, refuses the third with -EEXIST, leaves actual_id lagging, and a lookup of D1 finds the first entry |
| ImaFs.MeasurementsStart | security/integrity/ima/ima_fs.c:84-100 | the element at 0-based index pos, or none when pos is negative or past the end |
| ImaFs.MeasurementsNext | security/integrity/ima/ima_fs.c:102-116 | pos goes up by one; the successor, or none at the end of the list |
| ImaFs.Putc | security/integrity/ima/ima_fs.c:122-126 | appends exactly the first datalen bytes, in order |
| ImaFs.PrintDigest | security/integrity/ima/ima_fs.c:221-227 | appends two lower-case hex digits per byte, in byte order |
| ImaFs.MeasurementsShow | security/integrity/ima/ima_fs.c:136-195 | a missing entry gives -1 and writes nothing; otherwise 0 and the binary record: header then fields |
| ImaFs.PutBinaryHeader | security/integrity/ima/ima_fs.c:151-180 | writes the 20-byte SHA-1 digest, the 4-byte name length, the name (desc name, else fmt) and, unless the name is "ima", the 4-byte data length; no pcr |
| ImaFs.PutBinaryFields | security/integrity/ima/ima_fs.c:183-193 | writes each field in order in its binary show type |
| ImaFs.ChooseShow | security/integrity/ima/ima_fs.c:184-191 | the show type differs from the plain binary one exactly for fields "d" and "n" of the "ima" template |
| ImaFs.BinaryRecordRoundTrip | security/integrity/ima/ima_fs.c:128-180 | a binary record reads back to its digest, its name and (except for "ima") its data length, with the fields after them |
| ImaFs.PcrNotEmitted | security/integrity/ima/ima_fs.c:159 | two entries differing only in pcr have the same binary record |
| ImaFs.AccountedVersusEmitted | security/integrity/ima/ima_queue.c:73-78 | for a named non-"ima" template the fixed part written is four bytes shorter than the fixed part the tally counts |
| ImaFs.AsciiMeasurementsShow | security/integrity/ima/ima_fs.c:230-266 | a missing entry gives -1 and writes nothing; otherwise 0 and the ASCII line: head, fields, newline |
| ImaFs.PutAsciiHead | security/integrity/ima/ima_fs.c:243-253 | writes "%2d " with the pcr, the SHA-1 digest in lower-case hex, then a space and the template name |
| ImaFs.PutAsciiFields | security/integrity/ima/ima_fs.c:255-263 | for each field a space, then its ASCII text unless its data is empty |
| ImaFs.AsciiFieldsStartWithSpace | security/integrity/ima/ima_fs.c:256-257 | with at least one field the field part starts with a space |
| ImaFs.CString | security/integrity/ima/ima_fs.c:509-513 | the C string is the prefix before the first NUL, and the whole text when there is none |
| ImaFs.KstrToUintOne | security/integrity/ima/ima_fs.c:505-519 | among strings shorter than three bytes, exactly "1", "1\n", "+1" and "01" read as 1 |
| ImaFs.WriteActiveAccepts | security/integrity/ima/ima_fs.c:493-526 | the write succeeds, returning count, exactly when the namespace is inactive, count < 3, ppos is 0, the copy succeeds, the text reads as 1 and initialisation succeeds; an active namespace gets -EBUSY |
| ImaFs.WriteActiveExamples | security/integrity/ima/ima_fs.c:505 | "1\n" and "1\0" activate an inactive namespace; "2" is refused with -EINVAL |
| ImaFs.OpenPolicy | security/integrity/ima/ima_fs.c:399-423 | -EACCES for an inactive namespace or a read-only open; for a writer -EBUSY exactly when IMA_FS_BUSY was set, 0 otherwise, and the bit is set afterwards; only the busy flags can change |
| ImaFs.ReleasePolicy | security/integrity/ima/ima_fs.c:432-470 | a read-only release changes nothing and audits nothing; otherwise an invalid or rejected policy has its rules deleted and valid_policy reset to 1, a valid one is applied, the busy bit is cleared either way, and init_ima_ns gets the audit record "failed" with result 1 or "completed" with result 0 |
| ImaFs.ClearBusy | security/integrity/ima/ima_fs.c:455 | clearing IMA_FS_BUSY leaves the bit clear and every other bit as it was |
| ImaFs.StrSep | security/integrity/ima/ima_fs.c:315 | the text up to the first newline or NUL, free of both, with the rest after the newline when there is one |
| ImaFs.ReadPolicy | security/integrity/ima/ima_fs.c:292-330 | the rule loop runs strsep over the file's buffer and the bytes after it, subtracts each parse result from the size_t size and stops at the first error; the result is that error, -EINVAL when the size is not zero, or the path's length |
| ImaFs.ConsumeRulesTerminated | security/integrity/ima/ima_fs.c:315-321 | with a parser accounting for each rule and its newline, an empty or newline-terminated file brings the size to 0 before strsep leaves the buffer |
| ImaFs.ConsumeRulesUnterminated | security/integrity/ima/ima_fs.c:315-321 | with such a parser, a file whose last line lacks a newline leaves the size non-zero, whatever bytes follow the buffer |
| ImaFs.StrSepAppend | security/integrity/ima/ima_fs.c:315 | on a string followed by more memory, strsep stops at a newline inside the string, and otherwise the rule runs on into what follows |
| ImaFs.ReadPolicyNeedsFinalNewline | security/integrity/ima/ima_fs.c:292-330 | with such a parser, loading a policy file succeeds with the path's length exactly when the file is empty or ends with a newline, and otherwise fails with -EINVAL, whatever lies after the buffer |
| ImaFs.WriteLength | security/integrity/ima/ima_fs.c:343-344 | at most PAGE_SIZE − 1 bytes are taken, and all of them when fewer were written |
| ImaFs.WritePolicy | security/integrity/ima/ima_fs.c:332-381 | -EACCES for an inactive namespace, -EINVAL for a partial write, the copy and lock errors; a text starting with '/' loads a policy file; for init_ima_ns under signed-policy appraisal any other text is refused with -EACCES and the audit record "signed policy required" with result 1, which no other path emits; otherwise the text is one rule; any failure after the activity check clears valid_policy |
| CheckPcr10.StripEmpty | check_PCR10.py:76-78 | a line strips to nothing exactly when it is all whitespace |
| CheckPcr10.WordsStrip | check_PCR10.py:76-80 | stripping a line does not change its tokens |
| CheckPcr10.WordsValid | check_PCR10.py:80 | every token split() yields is non-empty and free of whitespace |
| CheckPcr10.WordsAppend | check_PCR10.py:80 | a whitespace byte between two texts separates their tokens |
| CheckPcr10.WordsJoinSpace | check_PCR10.py:80 | split() undoes joining valid tokens with spaces |
| CheckPcr10.JoinSplitLines | check_PCR10.py:73 | joining the pieces of split("\n") with newlines gives the text back |
| CheckPcr10.ExitStatus | check_PCR10.py:57-82 | the script exits with status 0 exactly when it reports a validation or a mismatch |
| CheckPcr10.ExtendValue | check_PCR10.py:86-87 | a zero template hash is replaced by 0xff…ff and any other is kept; the value extended is never zero |
| CheckPcr10.ParseTokens | check_PCR10.py:80-90 | fewer than five tokens abort; an accepted line extends with its second token decoded (zero replaced) and carries a vPCR digest exactly for ima-dig-imaid lines of the namespace; a bad hex token crashes |
| CheckPcr10.ParseLineCases | check_PCR10.py:75-90 | a line is skipped exactly when it is all whitespace, aborts exactly when it has fewer than five tokens, and otherwise is read from its own tokens |
| CheckPcr10.Replay | check_PCR10.py:53-102 | a wrong argument count gives usage status 1 before the log is read; otherwise the replay, from the zero hash, of the lines of the log after "\r\n" and "\r" became "\n" |
| CheckPcr10.TranslateNewlines | check_PCR10.py:71 | the text-mode read leaves no carriage return in the text |
| CheckPcr10.TranslateNewlinesKeeps | check_PCR10.py:71 | text without a carriage return passes the read unchanged |
| CheckPcr10.CarriageReturnEndsLine | check_PCR10.py:71-73 | a lone "\r" or a "\r\n" after a line ends that line for the script, just as "\n" does |
| CheckPcr10.ReplayLines | check_PCR10.py:75-102 | the loop over the lines equals the run over their parse results: skip, abort, crash, or extend and stop at the first match |
| CheckPcr10.ExtendBoth | check_PCR10.py:89-98 | the vPCR is extended with the namespace digest when there is one, the running hash becomes H(running ‖ template hash), and found is the case-insensitive comparison |
| CheckPcr10.ReadLine | check_PCR10.py:76-90 | the loop body's reading of a line equals its parse |
| CheckPcr10.ReadTokens | check_PCR10.py:80-90 | the token checks equal the token parse |
| CheckPcr10.ChainSnoc | check_PCR10.py:92 | extending a chain by one more value hashes the chain's value with it |
| CheckPcr10.RunPrefix | check_PCR10.py:75-92 | over lines without a match or a bad line, the running hash is the chain over their template hashes and the vPCR the chain over their namespace digests |
| CheckPcr10.StopsAtFirstMatch | check_PCR10.py:94-98 | the run stops at the first line after which the running hash matches and reports the chain up to that line |
| CheckPcr10.ReadsToEnd | check_PCR10.py:100-102 | a log with no match and no bad line ends in a mismatch carrying the chain over all template hashes |
| CheckPcr10.StopsAtBadLine | check_PCR10.py:80-84 | a short line aborts and an undecodable one crashes, once reached |
| CheckPcr10.ValidatedMatches | check_PCR10.py:94-98 | a reported validation always matches the argument |
| CheckPcr10.ViolationReplaysAsPoison | check_PCR10.py:86-87 | the zero digest a violation is logged with replays as the kernel's SHA-1 poison value |
| CheckPcr10.AsciiLineTokens | security/integrity/ima/ima_fs.c:247-253 | the kernel's ASCII line splits into the pcr, the SHA-1 digest in lower-case hex and the template name, when the name is one token |
| CheckPcr10.AsciiLineReplays | check_PCR10.py:76-87 | a kernel line is never skipped, an accepted one extends with the digest the kernel printed, and only an ima-dig-imaid line can fail to decode |
| CheckPcr10.AsciiRecordIsOneLine | check_PCR10.py:71-73 | a record with no newline and no carriage return inside is exactly one line of the text the script reads and splits |
| TreeLib.Node.constructor | tree_lib.py:3-7 | a new node has the id, no children, no parent and status active |
| TreeLib.Node.AddChild | tree_lib.py:9-12 | the child goes last among the children, points back to this node and is returned |
| TreeLib.Node.AddChildBetween | tree_lib.py:14-18 | with no parent nothing changes; otherwise the child is appended under parent and points back to it, and both statuses, parent's own parent and the child's children stay as they were |
| TreeLib.Node.FindInChilds | tree_lib.py:20-30 | the first node with the id in depth-first order (the node, then each child's subtree in order), or none |
| TreeLib.FirstWithIdIn | tree_lib.py:20-30 | the node found carries the id and no earlier node does; none exactly when no node carries it |
| TreeLib.Node.NodeHeigh | tree_lib.py:38-44 | the number of nodes on the parent chain, the node included; 0 for no node |
| TreeLib.AncestryShape | tree_lib.py:38-44 | the parent chain steps parent by parent, ends at a root and never repeats a node |
| TreeLib.Node.CloseNs | tree_lib.py:46-50 | the node the search finds is closed and no other node changes; -1 and no change when there is none |
| ImaUtils.PrintUtil | security/integrity/ima/ima_utils.c:3-16 | the printed line is the prefix, a space and two upper-case hex digits per byte in order; undefined (none) for length 0 |
| ImaUtils.PutHexPair | security/integrity/ima/ima_utils.c:10-11 | one byte becomes two upper-case digits followed by a NUL, and nothing else in the buffer changes |
| ImaUtils.CStringStopsAtNul | security/integrity/ima/ima_utils.c:14 | "%s" reads exactly the digits before the NUL the last sprintf wrote |
| ImaUtils.PrintedHexDecodes | security/integrity/ima/ima_utils.c:10 | the printed digits decode back to the bytes and, lower-cased, are the list's "%02x" text |
| Bytes.U32RoundTrip | security/integrity/ima/ima_fs.c:165-167 | a 32-bit length written in either byte order reads back as itself |
| Bytes.UnhexHexLower | check_PCR10.py:84 | the "%02x" digest text the kernel prints decodes back to the digest |

## Left out

- Locks, RCU and the ordering of concurrent writers: every update is sequential. The unbounded spin at `ima_queue.c:182` is not a loop. `AddTemplateEntry` returns `admitted == false` with the state after registration, which is where the source would spin forever.
- `printk`, `pr_err` and `pr_debug` output, and the formatting of the audit messages. An audit record of the engine keeps the operation, file name, cause, result and info; one of the policy file keeps the cause, result and info, its operation always being "policy_update". The audit records that `ima_parse_add_rule` and `ima_check_policy` emit themselves are not part of this model.
- `integrity_audit_msg`'s inode argument.
- The timing and latency of the TPM.
- The bodies of `tpm_pcr_extend`, `kmalloc`/`kcalloc`, `kernel_read_file_from_path`, `memdup_user_nul`, `ima_parse_add_rule`, `ima_check_policy`, `ima_update_policy`, `ima_delete_rules` and `ima_init_namespace` are not part of this model. Their outcomes are parameters. The last two policy calls are counted, not performed.
- The `field_show` callbacks are not part of this model. They are a parameter that maps a field id, a show type and field data to bytes.
- The `CONFIG_*` alternatives other than the configuration stated above. This includes the seq_file policy reader under `CONFIG_IMA_READ_POLICY` and the policy-file removal when neither policy option is set.
- `ima_measurements_stop`, the `open` handlers, `ima_show_active`, `ima_show_htable_value`, `ima_fs_ns_init` and `ima_fs_init`: securityfs plumbing with no logic beyond the activity check already modelled.
- The many prototypes in `ima.h` whose bodies are not shown (crypto, appraisal, policy, keys).
- `ima_queue_entry.list_length` and `ima_htable.violations`: the engine never reads them.
- `check_PCR10.py`'s SHA-256/384/512 tables: the main block only ever uses SHA-1.
- `check_PCR10.py`'s file open and UTF-8 decoding: the log is given as its bytes. A log that is not valid UTF-8, on which the read raises, is not modelled; the newline translation of the text-mode read is.
- `str.isspace`, `str.split` and `str.lower` are modelled on ASCII only. Non-ASCII whitespace and non-ASCII case mapping are not modelled.
- A bad hex token in the script is a crash (exit status 1); Python's traceback is not modelled.
- `tree_lib.py`'s `find_in_tree` is not modelled. It calls the name-mangled `__find_in_childs`, which does not exist, so every call raises.
- `bash_run.py`: shell and subprocess plumbing only.
- TreeLib.Node.FindInChilds: the caller supplies a ghost rank map, which must decrease from parent to child. This requires the tree reached to be acyclic. Python does not check this and would recurse forever on a cycle.
- TreeLib.Node.NodeHeigh: likewise, the caller supplies a ghost depth map that decreases along parent pointers.
- TreeLib.Node.CloseNs: it also requires the ranked (acyclic) tree that its search requires. Python returns `None` on success; the model returns `None` there and `Some(-1)` when the id is absent.
- ImaUtils.PrintUtil: it requires `2 * length + 1 <= 1024`, that is length ≤ 511. A longer input overflows the stack buffer in C, which the model does not represent. With length 0 the buffer is never written and printk reads uninitialised memory; the model returns `None` for it.
- ImaFs.KstrToUintOne: it covers strings shorter than three bytes only. `ima_write_active` refuses longer writes before parsing, so `kstrtouint`'s overflow handling is not modelled.
- ImaQueue.LookupDigestEntry: memcmp is over the first 32 bytes, the SHA-256 size, under the fixed configuration. Other `ima_hash_algo` choices are not modelled.

## Findings

| source | as written | input that shows it | evidently intended | confidence | as-written member | corrected member |
|---|---|---|---|---|---|---|
| security/integrity/ima/ima_queue.c:69-80 | `get_binary_runtime_size` sums the entry size in a 32-bit `int`. At lines 115-121 that int is converted to unsigned long, so a size of 2^31 or more wraps negative and becomes a huge unsigned value. | an entry with a 6-byte template name and `template_data_len` = 2^31: the int size is 38 − 2^31, and a tally of 0 jumps to 2^64 − 2^31 + 38 instead of 2^31 + 38 | the tally grows by the exact entry size or saturates at ULONG_MAX, as the saturating comparison at lines 114-121 is written to do | medium (not executed; needs a 2 GiB template entry) | ImaQueue.EntrySizeWraps | ImaQueue.AccountEntry |
