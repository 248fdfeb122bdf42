# Ansible execution backend of jiav: a Dafny model

This project models the core of the jiav Ansible backend, `AnsibleBackend.execute_backend`, in two revisions:

- the newer one, in `src/jiav_ansible/backend.py`, which reduces the engine's task events into a `Result`;
- the older one, in `jiav/api/backends/ansible.py`, which judges the run by its failure statistics and keeps the engine's stdout transcript after sanitizing it.

The model abstracts the engine (ansible-runner), the YAML serializer (ruamel.yaml) and the filesystem. It keeps the three deterministic pieces between them:

- **ANSI sanitizer** (`ansi.dfy`, module `Ansi`). `handle_ansi_chars` becomes `Strip`, a left-to-right scan over a `string`. At each position it either drops one complete control sequence or keeps one character and moves on. `MatchLen` finds the sequence. It does the greedy matching of `ESC [@-_] [0-?]* [ -/]* [@-~]`. A separate grammar predicate, `IsEscSeq`, states what a complete sequence is. `MatchLenIff` proves that the scanner and the grammar agree. `fix_ansi_list` becomes `FixAnsiList`. Both source files define identical sanitizers, so they are modelled once.
- **Event reducer** (`events.dfy`, module `Events`). `_event_handler` becomes `Handle`, and a run becomes a left fold, `Fold`, over the emitted events. `FailedLines` and `OkLines` are the reference: the failed (or ok) events, filtered and formatted in emission order.
- **Playbook materializer** (`playbook.dfy`, module `Playbook`). The loop that dumps each play becomes `MaterializeFrom`, a fold over the plays. It uses an abstract serializer `P -> Option<string>` (`None` where `yaml.dump` raises) and a file made of its content and cursor. `Write` overwrites at the cursor. `Rewind` is `seek(0)`, so every play is written from offset 0 over the previous one. `Overlays` is the pointwise reference for the resulting file: each character comes from the last play whose text reaches that offset.
- **Schema** (`schema.dfy`, module `Schema`). The declared `SCHEMA` is checked against a small JSON value type. `Violations` covers the JSON Schema 2020-12 keywords the schema uses: `type` (section 6.1.1 of JSON Schema Validation), `required` (section 6.5.3 of JSON Schema Validation), and `properties` and `additionalProperties` (sections 10.3.2.1 and 10.3.2.3 of JSON Schema Core).
- **Execution** (`backend.dfy` and `legacy_backend.dfy`). `Backend.Execute` and `LegacyBackend.ExecuteLegacy` compose materialization, the `ready` gate, an engine passed in as a function of the file content, and the status classification. `None` stands for "no `Result` assigned".

Behaviour of the code worth knowing, each proved in the model:

- **Sanitizing twice.** Sanitizing is not idempotent. A sanitized string can contain a new complete sequence (`Ansi.StripNotIdempotent`).
- **Playbook file.** Each dump is written from offset 0 over the previous one, because of the `seek(0)` after it. The file handed to the engine therefore begins with the last play's text, not with all plays in order (`Playbook.SecondPlayOverwritesFirst`, `Playbook.MaterializeOverlays`).
- **`successful` and `errors` in the newer backend.** A successful result may carry errors, because the status check ignores the failed events (`Backend.SuccessfulWithErrors`). In the older backend a successful result never carries errors (`LegacyBackend.LegacySuccessfulNoErrors`).
- **Schema keys.** The schema rejects every top-level key other than `playbook` (`Schema.ExtraKeyRejected`).
- **Failed tasks.** A failed task adds exactly one line to `errors`, with the rendered result payload inside that line (`Events.Handle`).
- **Sanitizing in the newer backend.** The newer backend defines the sanitizer but applies it to nothing: its call at `src/jiav_ansible/backend.py:187` is commented out. Its `Result` therefore holds unsanitized event lines.
- **Serialization failure.** A failed dump is not reported to the caller. The code logs it, skips the engine and leaves the `Result` unassigned (`Backend.UnserializableNoResult`).

## Model

| member | source | states |
|---|---|---|
| Ansi.MatchLen | src/jiav_ansible/backend.py:29-38 | a match found at the front is at least 3 long and is a complete sequence of the grammar ESC, introducer, parameters, intermediates, final byte |
| Ansi.MatchLenIff | src/jiav_ansible/backend.py:29-38 | the scanner matches `n` characters exactly when the first `n` characters form a complete sequence (both directions) |
| Ansi.EscSeqHasNoInnerEsc | jiav/api/backends/ansible.py:43-52 | no character after the first one of a complete sequence is ESC |
| Ansi.Strip | src/jiav_ansible/backend.py:23-39 | the sanitized string is never longer than the input, and a string with no ESC comes back unchanged |
| Ansi.StripDropsSequence | jiav/api/backends/ansible.py:37-53 | a complete sequence at the front is deleted entirely and sanitizing continues after it |
| Ansi.StripKeepsChar | src/jiav_ansible/backend.py:29-39 | a character that begins no complete sequence is kept, and sanitizing continues at the next character |
| Ansi.MatchLenStopsAtEsc | src/jiav_ansible/backend.py:29-38 | a match never reaches across a later ESC |
| Ansi.StripSplitAtEsc | src/jiav_ansible/backend.py:23-39 | text before an ESC is sanitized independently of what follows from that ESC on |
| Ansi.StripKeepsTrailingIncomplete | src/jiav_ansible/backend.py:29-39 | a trailing incomplete `ESC [` is kept, and the text before it is sanitized as on its own |
| Ansi.StripIsSubsequence | jiav/api/backends/ansible.py:37-53 | the output is the input with characters deleted and the survivors kept in order |
| Ansi.StripNotIdempotent | src/jiav_ansible/backend.py:23-39 | `ESC ESC [ m A B` sanitizes to `ESC A B`, which sanitizes to the empty string, so sanitizing twice differs from once |
| Ansi.FixAnsiList | jiav/api/backends/ansible.py:56-65 | the result has the input's length and its i-th element is the i-th input sanitized |
| Ansi.FixAnsiListAppend | src/jiav_ansible/backend.py:42-51 | sanitizing a list distributes over list concatenation |
| Events.Handle | src/jiav_ansible/backend.py:92-114 | one callback appends the event's own reference lines: exactly one `Task '…' failed on host '…' with result: '…'` line to `errors` for a failed event, exactly one `succeeded` line to `output` for an ok event, and nothing for any other kind |
| Events.Fold | src/jiav_ansible/backend.py:172-177 | the engine's callbacks in emission order only grow the two lists, by one line per failed event in `errors` and one per ok event in `output` |
| Events.FoldAppendsLines | src/jiav_ansible/backend.py:92-114 | folding the handler over a run appends exactly the failed events' lines to `errors` and the ok events' lines to `output`, each in emission order |
| Events.RunCounts | src/jiav_ansible/backend.py:95-131 | from empty lists, the number of error lines equals the number of failed events and the number of output lines the number of ok events; `errors` is empty iff no event failed |
| Events.FoldConcat | src/jiav_ansible/backend.py:92-114 | handling a run in two batches gives the same lists as handling it at once |
| Playbook.Write | src/jiav_ansible/backend.py:150 | a dump writes its text at the cursor, overwriting what was there, keeping the bytes before and after it, and moves the cursor past it |
| Playbook.Materialize | src/jiav_ansible/backend.py:129-158 | after the loop the file is ready iff the playbook is non-empty and every play serialized, and the stream is back at offset 0 |
| Playbook.MaterializeStops | jiav/api/backends/ansible.py:113-124 | at the first play that fails to serialize the loop stops: the file is as after the plays before it, and it is not ready |
| Playbook.MaterializeFrom | src/jiav_ansible/backend.py:147-158 | from any state, a non-empty run of the loop ends ready iff every play serialized, and a run that starts at offset 0 ends at offset 0, so every dump starts at offset 0 |
| Playbook.Dumps | src/jiav_ansible/backend.py:147-150 | when every play serializes, the dumps are the plays' serializations, one per play, in order |
| Playbook.MaterializeOverlays | src/jiav_ansible/backend.py:147-154 | after a fully successful loop each character of the file comes from the last play whose text reaches that offset, and the file is as long as the longest dump |
| Playbook.MaterializeStartsWithLast | jiav/api/backends/ansible.py:113-120 | after a fully successful loop the file begins with the last play's serialization |
| Playbook.SecondPlayOverwritesFirst | src/jiav_ansible/backend.py:150-154 | two plays of equal length leave only the second play's text in the file, not both |
| Schema.Violations | src/jiav_ansible/backend.py:70-77 | every violation reported names a field that really offends the schema: a required name that is absent, a present key outside `properties` when additional properties are forbidden, or a value (or the document itself) of the wrong declared type |
| Schema.StepSchemaExact | src/jiav_ansible/backend.py:70-77 | the schema accepts exactly the objects whose only key is `playbook` and whose `playbook` is an array |
| Schema.MissingPlaybookNamed | src/jiav_ansible/backend.py:72-74 | an object without `playbook` is rejected with a violation naming `playbook` |
| Schema.ExtraKeyRejected | src/jiav_ansible/backend.py:75-76 | every top-level key other than `playbook` is rejected by name |
| Schema.EmptyObjectViolations | src/jiav_ansible/backend.py:70-77 | the empty object's only violation is the missing `playbook` |
| Backend.Execute | src/jiav_ansible/backend.py:128-188 | a `Result` is produced iff the file is ready; its `successful` follows the status, its `errors` and `output` are the failed and ok event lines in emission order |
| Backend.FailedStatusUnsuccessful | src/jiav_ansible/backend.py:179-180 | a `failed` or `timeout` status gives an unsuccessful result whatever the events |
| Backend.SuccessfulWithErrors | src/jiav_ansible/backend.py:179-188 | a run reported `successful` with one failed event gives a successful result with one error line |
| Backend.OneOkTask | src/jiav_ansible/backend.py:105-188 | one play and one ok event under a `successful` status give a successful result with that event's line as the only output and no errors |
| Backend.OneFailedTask | src/jiav_ansible/backend.py:95-188 | one play and one failed event under a `failed` status give an unsuccessful result with that event's line as the only error and no output |
| Backend.UnserializableNoResult | src/jiav_ansible/backend.py:155-159 | a playbook with a play that cannot be serialized produces no `Result` |
| LegacyBackend.ExecuteLegacy | jiav/api/backends/ansible.py:95-153 | a result is produced and the temp file closed iff the file is ready; `successful` iff the failures map is empty; `output` is the sanitized transcript; `errors` is empty on success and the sanitized transcript otherwise |
| LegacyBackend.LegacySuccessfulNoErrors | jiav/api/backends/ansible.py:98-147 | a successful result has no errors, and an unsuccessful one has the same lines as errors and as output |
| LegacyBackend.LegacyLinesSanitized | jiav/api/backends/ansible.py:138-153 | every output and error line is a transcript line passed through the sanitizer, and no output line is longer than its raw line |

## Left out

- The engine, ansible-runner (`RunnerConfig`, `Runner`, `run`, `ansible_runner.run`). It is a parameter: a function from the file content to a status token and an event list (newer backend), or to a failures map and a stdout transcript (older backend). The engine's own behaviour is not modelled.
- The callback threading context. Events arrive as one ordered list, which is how the engine serializes them for one run.
- The two reads of `stdout.readlines()` in the older backend. Both reads stand for the same transcript. Stream positions are not modelled.
- The YAML serializer, ruamel.yaml `dump`. It is an abstract total function returning `None` where it raises. A failing dump is modelled as writing nothing. A partial write before the failure is not modelled, because the file is then never handed to the engine.
- The filesystem: `tempfile`, `mkdtemp`, `shutil.rmtree` and `_artifacts_handler`. The model makes no claim of guaranteed cleanup. When the file is not ready, the newer backend never removes its temporary directory, and the older backend never explicitly closes its temporary file.
- The JSON Schema validator engine, which lives in `BaseBackend`, and the older backend's imported `schema`. Neither is part of this model. Only the declared `SCHEMA` is modelled, as a predicate over JSON values. JSON numbers are integers here.
- Playbook.Write: offsets and lengths count characters, while the source's text-mode temporary file (`mode="w+t"`) overwrites encoded bytes after `seek(0)`. The two agree when every dump is ASCII. For non-ASCII dumps the byte-level residue of a longer earlier dump can differ from, or split, the characters the model keeps. The encoder is not modelled.
- Playbook.MaterializeOverlays: the per-offset overlay and "as long as the longest dump" hold in the source for encoded bytes, and in the model for characters. They coincide for ASCII dumps only, for the reason given for `Playbook.Write`. `Playbook.MaterializeStartsWithLast` holds under either reading.
- Events.Handle: a missing `event_data` is not modelled. The handler would raise on it. Each payload field is kept as the text its f-string renders to.
- Python's truthiness of `stats["failures"]`. It is modelled as "the failures map is non-empty". A missing `stats` is not modelled.
- Logging, the hard-coded engine binary path, the verbosity constant, `MOCK_STEP`, and the backend's constructor.
