# OctoPrint-PeerPrint: fileshare reclamation and local address fallback

This project models two pieces of the PeerPrint OctoPrint plugin in Dafny and proves properties of them.

1. **Fileshare reclamation** (`Plugin.cleanup_fileshare`). The plugin stores print files in a fileshare directory. Each entry is named after the content hash of a job. The pass works in two steps:
   - It collects the *keep set*. For every queue except the archive and default queues, it takes the hash of each job that is hosted (`peer_`) or claimed (`acquired_by_`) by that queue's own address. The comparison is Python's `==`, and any of the three addresses may be `None`.
   - It walks the directory and splits each name with `os.path.splitext`. Entries whose extension is not one of `""`, `.gjob`, `.gcode`, `.gco` are left alone. Every other entry whose stem is not in the keep set is deleted: `rmtree` for a directory (its errors are suppressed) and `unlink` for a file (its errors propagate). The pass returns the number of entries it deleted.
2. **Local address resolution** (`Plugin.get_local_addr`). The plugin first connects a datagram socket to the online-check host and reads back the local endpoint. If that endpoint can be bound, it is returned as `"host:port"`. Otherwise the host is looked up as `<hostname>.local`, or as the bare hostname if that lookup raises `gaierror`. A stream socket is then bound to `(host, 0)`, and the port the OS assigns is used.

Modules:

- `Wrappers` (wrappers.dfy): `Option` and `Result`.
- `Strings` (strings.dfy): last-index search, and decimal rendering and parsing of naturals.
- `PathSplit` (path_split.dfy): POSIX `os.path.splitext`.
- `FileshareCleanup` (fileshare_cleanup.dfy): queues, the keep set, the directory, the deletion loop and the whole pass.
- `CleanupExamples` (fileshare_examples.dfy): the outcomes the plugin's cleanup tests expect.
- `LocalAddr` (local_addr.dfy): the address fallback chain, with every socket and name-service outcome as an input.

How things are represented:

- The queue registry is a sequence of `Queue(name, addr, jobs)`, in the order `queues.items()` yields them.
- A queue's `addr` and a job's `peer_` and `acquired_by_` are each an `Option<string>`, where `None` stands for Python's `None`. Ownership compares them as Python does, so `None == None` holds. A non-reserved queue without an address therefore keeps every job of its own that has no claimant (`FileshareCleanup.UnaddressedQueueKeepsUnclaimed`).
- The fileshare directory is a `Store`. It is either `Missing` or `Present(entries)`, where the entries map each name to `File` or `Dir`.
- The order of `os.listdir` is an input `listing`. The only requirement is that it lists each entry exactly once.
- Filesystem failures are an input `Faults`:
  - `unlinkFails` holds the files whose `unlink` raises. The pass stops with `UnlinkFailed`, carrying the directory as it stood at that point.
  - `rmtreeFails` holds the directories that `rmtree(ignore_errors=True)` cannot remove. Such an entry stays, but it is still counted, as in the source.

Behaviour of the code worth noting:

- The comment at plugin.py:117 says the loop deletes `.gjob` and `.gcode` files. The code also deletes `.gco` entries and entries with no extension, directories and dot-files included. `splitext(".lock")` gives `(".lock", "")`, and the empty extension is on the allow-list at plugin.py:122. So a dot-file whose name is not a kept hash is deleted (`FileshareCleanup.CleanupRemovesDotFiles`).
- A failed probe is not recovered. The code does not catch an error from `connect` on the online-check socket, so the error propagates (`ProbeFailed`). There is no fallback.
- A failed bare-hostname lookup propagates. When the bare-hostname lookup raises `gaierror`, nothing catches it (`LookupFailed`).
- The count includes directories that `rmtree` failed to remove.

The code also has these defects. The model follows what the code and its tests evidently intend:

- `plugin.py` never imports `os` or `shutil`, and never defines `ARCHIVE_QUEUE` or `DEFAULT_QUEUE`. The model assumes the modules are available. The two reserved queue names are parameters. Nothing in the model needs them to differ.
- The tests call `_cleanup_fileshare`, but the plugin defines `cleanup_fileshare`. The outcomes the tests expect are proved about `FileshareCleanup.CleanupFileshare`.
- A missing directory should give 0 (see Findings).

## Model

| member | source | states |
|---|---|---|
| `PathSplit.SplitExt` | octoprint_peerprint/plugin.py:121 | The stem followed by the suffix gives back the entry name. The suffix is empty, or a dot followed by no further dots or slashes. A non-empty suffix leaves a character other than a dot in the stem's final component. |
| `PathSplit.SplitExtJoin` | octoprint_peerprint/plugin.py:121 | Splitting `root + ext` gives back `(root, ext)` when `ext` is a dot followed by no dots or slashes and the root's final component is not all dots. |
| `PathSplit.NoDotNoExtension` | octoprint_peerprint/plugin.py:121 | A name without a dot has an empty suffix, so a directory like `d` is a candidate for deletion. |
| `PathSplit.LeadingDotsNoExtension` | octoprint_peerprint/plugin.py:121 | Dots that lead the final component do not start a suffix, so `.x`, `..x` and `dir/.x` are all stem. |
| `FileshareCleanup.OwnedHashesSpec` | octoprint_peerprint/plugin.py:113-115 | The inner loop, modelled by `FileshareCleanup.OwnedHashes`, collects a hash from a queue's jobs exactly when some job with that hash has `peer_` equal to the queue's address, or `acquired_by_` equal to it. Equality includes `None == None`. |
| `FileshareCleanup.KeepHashesSpec` | octoprint_peerprint/plugin.py:109-115 | The keep set, built by `FileshareCleanup.KeepHashes`, holds a hash exactly when some job in some non-reserved queue carries that hash and is hosted or claimed by that queue's own address. Both directions are proved. |
| `FileshareCleanup.UnaddressedQueueKeepsUnclaimed` | octoprint_peerprint/plugin.py:110-115 | In a non-reserved queue whose `addr` is `None`, every job whose `acquired_by_` is `None` has its hash kept. |
| `FileshareCleanup.ReservedQueueAddsNothing` | octoprint_peerprint/plugin.py:111-112 | Removing an archive or default queue from any position in the registry leaves the keep set unchanged, whatever its jobs and address. |
| `FileshareCleanup.SweepSpec` | octoprint_peerprint/plugin.py:120-134 | The loop over the listing, modelled by `FileshareCleanup.Sweep`, fails exactly when a doomed file cannot be unlinked. On success it removes every doomed entry except directories `rmtree` could not remove, and counts every doomed entry. On failure it names such a file, and the directory has lost only doomed entries. |
| `FileshareCleanup.CleanupFileshare` | octoprint_peerprint/plugin.py:103-135 | A missing directory gives 0 and stays missing. Otherwise the pass succeeds exactly when no condemned file is blocked. The entries left are the originals minus the condemned ones (except stuck directories), nothing else changes, and the count is the number of condemned entries. A failure names a blocked file, and only condemned entries are gone. |
| `FileshareCleanup.CleanupKeepsOwned` | octoprint_peerprint/plugin.py:109-127 | An entry whose stem is the hash of a job in a non-reserved queue, hosted or claimed by that queue's address, is never deleted, whether the pass succeeds or fails. |
| `FileshareCleanup.CleanupIgnoresForeignSuffix` | octoprint_peerprint/plugin.py:121-126 | An entry whose suffix is not `""`, `.gjob`, `.gcode` or `.gco` is never deleted, whatever the queues hold. |
| `FileshareCleanup.CleanupRemovesDotFiles` | octoprint_peerprint/plugin.py:121-134 | A dot-file whose name is not a kept hash is deleted by a successful pass, because its suffix is empty. |
| `FileshareCleanup.CleanupLeavesOnlyKept` | octoprint_peerprint/plugin.py:120-135 | After a successful pass, every entry left with a printable suffix has its stem in the keep set, or is a directory `rmtree` could not remove. |
| `FileshareCleanup.SecondPassDeletesNothing` | octoprint_peerprint/plugin.py:120-135 | A second pass with the same queues succeeds in any listing order and under any faults. It deletes exactly as many entries as there were stuck directories. When there were none, it deletes 0 and changes nothing. |
| `FileshareCleanup.EmptyStoreDeletesNothing` | octoprint_peerprint/plugin_test.py:23-24 | An existing, empty directory gives 0 and stays empty. |
| `FileshareCleanup.CleanupAsWritten` | octoprint_peerprint/plugin.py:104-105 | The code as written raises on a missing directory (`n` is returned unassigned). On an existing directory it behaves like the corrected pass. |
| `FileshareCleanup.MissingStoreDiscrepancy` | octoprint_peerprint/plugin.py:104-105 | On a missing directory the code as written fails, while the corrected pass returns 0. |
| `CleanupExamples.CleanupWithFilesFor` | octoprint_peerprint/plugin_test.py:3-36 | Take any distinct, non-empty hashes a–d without dots or slashes, where a is hosted by the queue's address, b is claimed by it, and c and d belong to another peer. In any listing order, the pass deletes exactly `c.gcode` and directory `d`, keeps `a.gcode` and `b.gcode`, and returns 2. |
| `CleanupExamples.CleanupWithFiles` | octoprint_peerprint/plugin_test.py:26-36 | The same outcome for the test's own names `a`, `b`, `c`, `d`. |
| `CleanupExamples.CleanupNoFiles` | octoprint_peerprint/plugin_test.py:23-24 | The test's queue with an empty directory gives 0. |
| `Strings.Decimal` | octoprint_peerprint/plugin.py:69 | The rendering of a port number inside an f-string is non-empty, all digits, and has no leading zero unless it is `0`. `Strings.DecimalRoundTrip` proves that `Strings.ParseDecimal` reads it back as the same number. |
| `Strings.DecimalRoundTrip` | octoprint_peerprint/plugin.py:92 | Reading the decimal rendering of any natural back digit by digit gives that natural, so the port in the returned address is the port the OS assigned. |
| `LocalAddr.FormatAddr` | octoprint_peerprint/plugin.py:69 | `f"{host}:{port}"`, built with `Strings.Decimal`, parses back, at its last colon, into exactly that host and port. |
| `LocalAddr.FallbackHost` | octoprint_peerprint/plugin.py:77-81 | The host is the `<hostname>.local` address when that resolves. Otherwise it is the bare-hostname address when that resolves. Otherwise the lookup fails, naming the hostname. |
| `LocalAddr.GetLocalAddr` | octoprint_peerprint/plugin.py:48-92 | A failed probe is an error. A bindable probe endpoint is returned and denotes exactly that endpoint. Otherwise a lookup failure propagates, a failed listener bind is an error naming the host, and success denotes the fallback host with the port the OS assigned. |
| `LocalAddr.ProbeWinsWithoutLookups` | octoprint_peerprint/plugin.py:61-69 | When the probe endpoint can be bound, the hostname, the name service and the listener make no difference to the result. |
| `LocalAddr.MdnsFirst` | octoprint_peerprint/plugin.py:78-81 | The bare hostname is not consulted when `<hostname>.local` resolves. |
| `LocalAddr.ListenFailurePropagates` | octoprint_peerprint/plugin.py:83-92 | A failing bind of the ephemeral listener ends the chain with that error, and there is no further fallback. |
| `LocalAddr.ResolutionViaCheckAddrOK` | octoprint_peerprint/plugin_test.py:69-75 | A bindable probe endpoint 1.2.3.4, port 1234, gives `"1.2.3.4:1234"`. |
| `LocalAddr.ResolutionFailoverToMdns` | octoprint_peerprint/plugin_test.py:78-83 | An unbindable probe endpoint, with the lookup answering 1.2.3.4 and the listener given port 1234, gives `"1.2.3.4:1234"`. |

## Left out

- Sockets are not modelled: creation, `connect`, `bind`, `listen`, `getsockname`, `close` and the `GET_ADDR_TIMEOUT` of 3 seconds. They are OS and network I/O, so only their outcomes enter the model, as the inputs of `LocalAddr.GetLocalAddr`.
- The online-check host and port are read from OctoPrint's settings. The model does not cover this read or the address the probe connects to (the test's `connect` assertion). The probe's local endpoint is an input instead.
- `_can_bind_addr` is an input `canBind`. Its own defect is not modelled: `s` is unbound in `finally` if `socket.socket` raises.
- `socket.gethostname` is an input.
- Lookup errors other than `gaierror` are not modelled.
- Filesystem calls are not modelled: `os.path.exists`, `os.listdir`, `Path.is_dir`, `shutil.rmtree` and `unlink`. The directory is a map, the listing order is an input, and failures are the `Faults` input.
- The contents of a directory that `rmtree` partly removes are not modelled: only top-level entries exist in the model.
- Job records missing a key (a `KeyError` in the source) are not modelled.
- The deletion count is a mathematical integer. Python integers are unbounded too.
- `_init_server` is not modelled. It covers P2PServer construction, the certificate directory, and the ping/`time.sleep` retry loop with `PP_CONNECT_ATTEMPTS` and `PP_CONNECT_DELAY`. This is external process and network plumbing.
- `_init_fileshare`, `_path_on_disk`, `start` and `_get_key` are not modelled. They are thin wrappers over OctoPrint's file manager, settings and the external `Fileshare` class from `peerprint.filesharing`, which this model does not cover. The tests `testFileshare*` exercise `_init_fileshare` and are not modelled either.
- Logging is not modelled, because it has no observable effect on results.
- `octoprint_peerprint/__init__.py` is plugin lifecycle and mixin glue. It is not part of this model.
- `octoprint_peerprint/data/__init__.py` holds settings keys, asset and template constants, and update metadata. It is not part of this model.
- `octoprint_peerprint/static/js/octoprint_peerprint.js` is an empty UI view-model stub. It is not part of this model.

## Findings

| source | as written | input that shows it | evidently intended | confidence | as-written member | corrected member |
|---|---|---|---|---|---|---|
| octoprint_peerprint/plugin.py:104-105 | When the fileshare directory does not exist, the function returns `n` before `n` is assigned. This raises `UnboundLocalError`. | A fileshare directory that does not exist (`Store.Missing`) | Return 0: there is nothing to reclaim | high; not executed | `FileshareCleanup.CleanupAsWritten` (the counterexample is `FileshareCleanup.MissingStoreDiscrepancy`) | `FileshareCleanup.CleanupFileshare` |
