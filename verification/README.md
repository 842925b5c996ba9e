# envy-merge, modelled in Dafny

envy-merge merges several `.env` files into one. One file may be named the
priority file. Its entries win over every other file. Among the regular files,
a later file overwrites an earlier one ("last write wins"). The result is
written as `KEY=VALUE` lines joined by newlines.

This project models the library core in `src/lib.rs`:

- `env_file.dfy` (module `EnvFile`) models `read_env_file`. The dotenv parser's
  outcome for a path is an input of type `FileState`: `Missing`, `Unopenable`,
  or `Present(items)`, where items are the parser's pairs and rejected lines in
  file order. `ReadEnvFile` is the insertion loop. A missing path gives the
  empty map. The first rejected item aborts the read with its position. Within
  a file, a later pair for a key overwrites an earlier one.
- `merge.dfy` (module `Merge`) models `merge_env_files`. `MergeEnvFiles` keeps
  the source's two working maps, `envMap` and `priorityVars`. It seeds both from
  the priority file, then runs the nested loop over the regular files and their
  keys, skipping priority keys. It is proved against `MergedMap`, a recursive
  fold over the files' contributions. A read error contributes nothing and is
  never reported, so the method always returns `Ok`.
- `serialise.dfy` (module `Serialise`) models the final
  `into_iter().map(..).collect().join("\n")`. The hash map's iteration order is
  unspecified. `IterationOrder` picks the next key arbitrarily, and every
  statement about the text holds for any such order.
- `scenarios.dfy` (module `Scenarios`) restates the cases in
  `tests/lib_test.rs` over the model. The maps for env1.env, env2.env and
  priority.env are the ones implied by the expected outputs in
  tests/lib_test.rs.
- `wrappers.dfy` holds `Option` and `Result`.

A malformed file does not abort the merge: `if let Ok(vars)` (src/lib.rs:17
and src/lib.rs:25) drops any read error, and the function always returns `Ok`
(src/lib.rs:41).
`Merge.MergeEnvFiles` ensures `r.Ok?`. `Merge.UnreadableFileChangesNothing`
proves that a file whose read fails is treated like a missing file.

## Model

| member | source | states |
|---|---|---|
| `EnvFile.FirstMalformed` | src/lib.rs:49-50 | finds the first item the parser rejects: none exactly when every item is a pair, and otherwise a rejected item with only pairs before it |
| `EnvFile.Read` | src/lib.rs:44-56 | a missing path reads as the empty map; an unopenable file is an error; a present file reads successfully exactly when every item parses, and otherwise fails at its first rejected item |
| `EnvFile.ReadEnvFile` | src/lib.rs:44-56 | the insertion loop returns what `Read` specifies; on success it holds the pairs inserted in file order |
| `EnvFile.InsertedKeys` | src/lib.rs:49-52 | a key is in the file's map exactly when some parsed pair defines it |
| `EnvFile.InsertedLastWins` | src/lib.rs:49-52 | within one file, the last pair defining a key gives its value |
| `Merge.Contribution` | src/lib.rs:25 | a missing file contributes the empty map; an unopenable file, or a present one with a rejected line, contributes nothing; a well-formed file contributes its pairs inserted in file order |
| `Merge.MergeEnvFiles` | src/lib.rs:11-42 | never fails; the text is the merged map of the files' contributions, rendered in an iteration order that lists each merged key exactly once |
| `Merge.PriorityIsAuthoritative` | src/lib.rs:16-27 | every priority key is in the result with the priority value, whatever the regular files hold and in whatever order |
| `Merge.LastReadableFileWins` | src/lib.rs:24-31 | a key outside the priority map takes the value from the last readable regular file that defines it |
| `Merge.MergedKeys` | src/lib.rs:12-31 | the result's keys are exactly the priority keys together with the keys of the readable regular files |
| `Merge.SilentFileChangesNothing` | src/lib.rs:24-31 | inserting an unreadable or empty file anywhere in the list leaves the merged map unchanged |
| `Merge.UnreadableFileChangesNothing` | src/lib.rs:25 | dropping a regular file that is missing or fails to read leaves the merged map unchanged |
| `Merge.NoPriorityIsLastWins` | src/lib.rs:13-21 | with no priority file, or one that is missing or unreadable, nothing is exempt and the result is the plain last-write-wins fold |
| `Merge.NothingToMergeIsEmpty` | src/lib.rs:35-39 | when no file contributes a key, the merged map is empty and the text is the empty string |
| `Serialise.IterationOrder` | src/lib.rs:35-36 | the hash map's iteration visits every key of the map exactly once |
| `Serialise.RenderEmptyIff` | src/lib.rs:35-39 | the text is empty exactly when the map is empty, with no blank line |
| `Serialise.JoinSplit` | src/lib.rs:39 | splitting at newlines and joining with a newline gives back the text |
| `Serialise.SplitJoin` | src/lib.rs:39 | joining at least one newline-free line with single newlines and splitting again gives back exactly those lines, so there is no trailing newline |
| `Serialise.RenderedLines` | src/lib.rs:35-39 | for a non-empty map without newlines in keys or values, the text's lines are one `KEY=VALUE` per key, and as a set they are exactly `{KEY=VALUE}` over the map |
| `Serialise.RenderOrderIrrelevant` | tests/lib_test.rs:20-25 | for any map, including values that contain newlines, two renderings in any two iteration orders split into the same lines up to order |
| `Serialise.SplitPiecesNewlineFree` | tests/lib_test.rs:20 | no piece of the text split at newlines contains a newline |
| `Scenarios.ReadScenarios` | tests/lib_test.rs:81-114 | env1 reads as its three pairs; empty and missing files read as the empty map |
| `Scenarios.BasicScenario` | tests/lib_test.rs:12-27 | env1 then env2 without priority gives env2's values on shared keys and keeps the others |
| `Scenarios.PriorityScenario` | tests/lib_test.rs:29-45 | with the priority file, FOO, BAZ and KEEP take the priority values, and COMMON and NEW_VAR come from env2 |
| `Scenarios.SilentSecondFileScenario` | tests/lib_test.rs:47-79 | env1 followed by an empty or a missing file gives env1's own map |

## Left out

- The dotenv line format (quoting, comments, `export`, multi-line values) is
  parsed by the external `dotenvy` crate, whose source is not part of this
  model. Its outcome for a path is an input, `FileState`.
- File-system access (`Path::exists`, opening and reading) is folded into
  `FileState`.
- The concrete `HashMap` iteration order is left open. `IterationOrder` may
  pick any key next, and `MergeEnvFiles` returns the order it used as a ghost
  value.
- Error details are simplified. `ReadError` records only that the file could
  not be opened, or the position of the first rejected item. The crate's own
  error messages are not modelled, since the merge drops them.
- `src/main.rs` (argument parsing, printing, writing the output file, exit
  codes) is command-line glue and is not part of this model.
- `Serialise.RenderedLines` assumes that no key or value contains a newline. The source writes values unquoted, so a
  multi-line value would make the output's lines differ from its entries.
