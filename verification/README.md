# glob-hasher content normaliser and option resolvers, in Dafny

glob-hasher fingerprints the files matched by a set of globs under a root
directory. Before a file is hashed its bytes are prepared: a file whose first
8000 bytes contain a zero byte is treated as binary and hashed as read; any
other file is treated as text and its line endings are collapsed in a single
left-to-right pass that remembers the previous byte. The options of a call are
resolved from an optional, partially filled record over fixed defaults.

This project models those two pure components of the Rust source:

- `content.dfy` (module `Content`): the declarative definitions. `LooksBinary`
  is the zero-byte heuristic. `Normalize` is the text transform, defined by
  recursion with one byte of lookahead. It also holds the lemmas about these
  definitions.
- `hasher.dfy` (module `Hasher`): `IsBinary` and `ReadFile` follow `is_binary`
  and `read_file` of `src/hasher.rs` statement by statement: an early-returning
  scan, and a loop over the bytes with a `prevByte: Option<Byte>` lookback.
  Their contracts tie them to the definitions in `Content`. The file read is
  an input `Option<seq<Byte>>`, where `None` is a failed read.
- `config.dfy` (module `Config`): `get_hash_glob_config` and
  `get_hash_glob_parallel_config` with their option records.
- `wrappers.dfy` (module `Wrappers`): `Option` and `Result`.

Bytes are `bv8`. CR is 13, LF is 10, NUL is 0.

Three behaviours of the code are worth stating plainly:

- A CR that is the last byte of a text buffer is removed, even though no LF
  follows it. The final `if let Some(byte) = prev_byte` step
  (src/hasher.rs:136-141) only emits the last byte when it is not CR.
  `TrailingCrDropped` states this behaviour.
- The pass is not idempotent: CR CR LF becomes CR LF. So the output may still
  contain CRLF, and hashing is not invariant under every CRLF-to-LF rewrite.
  `NotIdempotent` exhibits this. `CrLfCheckoutNormalizes` and
  `LineEndingInvariance` state the invariance that does hold: it covers
  content that has nothing to collapse, compared with its CRLF checkout.
- The parallel resolver sets concurrency to 4 and never reads the caller's
  `concurrency` field.

## Model

| member | source | states |
|---|---|---|
| Hasher.IsBinary | src/hasher.rs:149-159 | The result is true exactly when a zero byte occurs at some index below both 8000 and the buffer length. |
| Content.BinaryIgnoresBytesPastLimit | src/hasher.rs:150-152 | Bytes appended after the first 8000 never change the classification, so a zero byte at index 8000 or later is ignored. |
| Hasher.ReadFile | src/hasher.rs:109-147 | A failed read gives the "Failed to read file" error and never content. A binary buffer is returned byte-for-byte. A text buffer gives exactly `Normalize` of its bytes; the `prevByte` loop is proved equal to that definition. |
| Content.Normalize | src/hasher.rs:121-141 | The normalised text is never longer than the input. |
| Content.NormalizeDeletesExactly | src/hasher.rs:121-141 | The output is the input with exactly these positions deleted: the CR bytes followed by LF, and a CR that is the final byte. Every other byte is kept, in order, including a CR followed by anything other than LF. So the output is a subsequence of the input. |
| Content.OnlyCrRemoved | src/hasher.rs:121-141 | Deleting every CR from the input and from the output gives equal sequences. |
| Content.OnlyCrCountsChange | src/hasher.rs:121-141 | Every byte value other than CR, LF included, occurs as often in the output as in the input. CR occurs at most as often. |
| Content.NormalizeFixedPointIff | src/hasher.rs:121-141 | A text buffer comes back unchanged if and only if every CR in it is followed by a byte other than LF. |
| Content.NoCrUnchanged | src/hasher.rs:121-141 | A text buffer with no CR byte comes back unchanged. |
| Content.TrailingCrDropped | src/hasher.rs:122-141 | Appending a CR to any buffer adds nothing for that CR: the new final CR is dropped. If the buffer already ended in CR, that earlier CR is now followed by CR rather than LF, so it is emitted; otherwise the output is unchanged. |
| Content.NotIdempotent | src/hasher.rs:122-134 | CR CR LF normalises to CR LF, and a second pass gives LF. |
| Content.NormalizeSplits | src/hasher.rs:122-134 | If the first chunk does not end in CR, normalising two chunks separately and concatenating equals normalising their concatenation. The lookback never crosses such a cut. |
| Content.CrLfCheckoutNormalizes | src/hasher.rs:121-141 | For content with nothing to collapse, normalising the version with every LF turned into CR LF gives back the content. |
| Content.CrLfKeepsText | src/hasher.rs:150-159 | Turning LF into CR LF never makes a text buffer binary. |
| Content.LineEndingInvariance | src/hasher.rs:112-141 | A text file with nothing to collapse and its CRLF checkout feed identical bytes to the hash: the file's own bytes. |
| Config.GetHashGlobConfig | src/config.rs:12-29 | With no options the result is cwd "." and gitignore true. A supplied cwd or gitignore replaces its default, and an absent one keeps it, independently of the other field. |
| Config.FieldsResolvedIndependently | src/config.rs:18-26 | Supplying only one field leaves the other at its default. An empty record resolves like no record. |
| Config.GetHashGlobParallelConfig | src/config.rs:44-62 | Concurrency is always 4. cwd and gitignore equal what the serial resolver gives for the same two fields. |
| Config.ConcurrencyNeverConsulted | src/config.rs:45-59 | Two requests that differ only in concurrency resolve to the same options. |

## Left out

- Directory walking, glob overrides and ignore-file rules (`serial`, `parallel`, src/hasher.rs:11-107): this behaviour belongs to the `ignore` crate's walker and override builder, which are not part of this model, and it needs a real filesystem. The panics of `.unwrap()` on a bad glob and of `expect` on a failed read are not modelled either.
- The xxh3-64 digest (src/hasher.rs:40, 93): it comes from a foreign library. The model stops at the bytes handed to it.
- Concurrent aggregation through `Arc<DashMap>` and `Arc::try_unwrap` (src/hasher.rs:69-102): its substance is concurrency.
- src/lib.rs: it holds the Node bindings and the global thread-pool setup. It calls `xxhash`, `git_hash` and `git_hash_vec`, which do not exist in this version of src/hasher.rs. Its `glob` comes from a `glob` module that is not part of this model. It reads `options.concurrency` on the resolved `HashGlobOptions`, which has no such field. So no git blob digest is modelled.
- The JavaScript tests and scripts: they compare xxh3 values of files on disk, which needs the hash library and a filesystem.
- File reading: `fs::read` is not modelled; its outcome is an input (`None` for failure). The error is a fixed value rather than an `anyhow::Error`.
- Integer widths: the caller's `u32` concurrency is `U32`, and the resolved `usize` is an unbounded `nat`. Only the constant 4 is ever produced, so width does not matter.
