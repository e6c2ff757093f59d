# customasm address resolution and file-handle table, in Dafny

This project models two sequential parts of the customasm assembler.

**Address resolution step** (`AddrResolver`, from `src/asm/resolver/addr.rs`).
An address directive's expression is re-evaluated on every resolution pass.
The step coerces an already-reported error value to 0 and overwrites the
directive's stored address. A value that moved since the previous pass makes
the directive `Unresolved`. On the last pass that is also a "address did not
converge" error, but it is not fatal. A value that stayed put is `Resolved`. On
the last pass a settled value is first checked against its bank:

- it must not lie below the bank's start;
- its offset scaled by the bank's addressing unit must fit a 64-bit `usize`;
- when the bank has a size, that scaled offset must be below the size.

Each failed check is a fatal error.

`ResolveStep` is the step as a pure function of the previously stored address.
`ResolveAddr` is the step as the source performs it. It overwrites a slot of
the definition table (`ItemDefs`, a class whose directive list is a `seq`
field) and appends to the diagnostic report. Its postcondition says that it
agrees with `ResolveStep`. `CheckBank` states the bank validation on its own.

**File-handle table** (`FileServer`, from `src/util/fileserver.rs`).
`FileServerMock` is the in-memory file server used by tests. It holds a map
from file names to 16-bit handles, a vector of names indexed by handle, and a
vector of contents indexed by handle. A name seen for the first time gets the
next handle, which is the number of names already in the map. `FileServerReal`
allocates handles the same way for names found on disk. Its on-disk existence
test is the `fileExists` parameter. Both classes state their table invariant
as `Valid()`, and every mutating method preserves it. The mock's `Contents()`
is the name-to-contents view that `Add` and `WriteBytes` update.

The diagnostic report is a sequence of messages. Each operation that may
report takes the sequence and returns it with at most one message appended.
Its `(descr, span)` pairs stand for `Report::error` and `Report::error_span`.

A bank of size `s` and unit `u` accepts the addresses whose scaled offset
`(address - addr_start) * u` is below `s`. That is every address below
`addr_start + ceil(s / u)`, not `addr_start + s / u` rounded down.
`SizedBankRange` proves this.

The mock's `write_bytes` allocates a handle for a new name without extending
`handles_to_filename`. A later `add` of that name, or of any new name, then
stores past the end of that vector, and the source panics. The model makes
this visible in two places:

- `CanAdd` is `Add`'s precondition;
- `WriteBytes` ensures that a name it has just created fails `CanAdd`.

## Model

| member | source | states |
|---|---|---|
| `AddrResolver.Coerce` | src/asm/resolver/addr.rs:29-35 | an integer value is kept as is; the error sentinel becomes 0 |
| `AddrResolver.CheckedToUsize` | src/asm/resolver/addr.rs:77-79 | the conversion succeeds exactly for 0 ..= usize::MAX and then yields the value itself, so it never wraps |
| `AddrResolver.CheckBank` | src/asm/resolver/addr.rs:62-102 | below the start fails as out of bank range; otherwise a scaled offset above usize::MAX fails as out of supported range; otherwise, with a size, a scaled offset >= size fails as out of bank range; the address is accepted exactly when none of these holds |
| `AddrResolver.ResolveStep` | src/asm/resolver/addr.rs:14-105 | a failed evaluation changes nothing and fails; otherwise the slot takes the coerced value; a changed value is Unresolved, with one "did not converge" error iff last pass; an unchanged value is Resolved without checks before the last pass, and on the last pass it is Resolved iff the bank accepts it, else it fails with that check's message |
| `AddrResolver.ResolveAddr` | src/asm/resolver/addr.rs:4-106 | the method overwrites only the referenced directive slot, leaves the banks unchanged, appends to the report at the expression's span exactly the error of ResolveStep, and returns its result |
| `AddrResolver.CeilDiv` | src/asm/resolver/addr.rs:90-101 | the least count q with q * unit >= size, i.e. the ceiling of size / unit: how many addresses a bank of that size spans |
| `AddrResolver.SizedBankRange` | src/asm/resolver/addr.rs:66-101 | with a positive unit and a size, the accepted addresses are exactly those from addr_start up to but excluding addr_start + ceil(size / unit) |
| `AddrResolver.ResolvedIsStable` | src/asm/resolver/addr.rs:38-105 | after a Resolved step, repeating it with the same evaluation gives the same outcome, and the address does not move |
| `AddrResolver.FinalPassStrictness` | src/asm/resolver/addr.rs:43-58 | the same change of value is silent and Unresolved before the last pass; on the last pass it is Unresolved with exactly one "address did not converge" error |
| `AddrResolver.BankBoundaries` | src/asm/resolver/addr.rs:66-101 | with unit 1, addr_start is accepted and addr_start - 1 fails as below start; offset == size fails as beyond size and offset size - 1 is accepted |
| `AddrResolver.BankScenarios` | src/asm/resolver/addr.rs:43-105 | bank at 0x8000, unit 1, size 0x4000: values 0x8010, 0x8020 are Unresolved, a settled 0x8020 is Resolved on the final pass, and a settled 0x7FFF or 0xC000 fails the final pass as out of bank range |
| `FileServer.ReportError` | src/util/fileserver.rs:417-431 | appends exactly one error with the given description, at the span when one is given and without a span otherwise |
| `FileServer.FileServerMock.constructor` | src/util/fileserver.rs:123-130 | an empty table that satisfies the invariant, with no names and no contents |
| `FileServer.FileServerMock.Add` | src/util/fileserver.rs:133-155 | a known name keeps its handle and only its contents slot changes; a new name gets handle = previous name count, and both vectors grow by exactly its slot; the contents view maps the name to the new contents, all other names unchanged; the invariant (files.len() == handles.len(), distinct handles below the count) is preserved |
| `FileServer.FileServerMock.GetHandle` | src/util/fileserver.rs:173-205 | with u16::MAX names it fails with "exhausted number of file handles" even for a known name; otherwise an unknown name fails with "file not found" and a known one yields its stored handle without a report; the table is not modified |
| `FileServer.FileServerMock.GetFilename` | src/util/fileserver.rs:208-214 | the name returned for a handle is registered under exactly that handle |
| `FileServer.FileServerMock.GetBytes` | src/util/fileserver.rs:217-225 | always succeeds, with the contents last stored under the name that owns the handle |
| `FileServer.FileServerMock.WriteBytes` | src/util/fileserver.rs:228-250 | allocates or reuses a handle like add and stores the data, but never extends the name vector, so a name it creates fails CanAdd; succeeds without a report and preserves the invariant |
| `FileServer.FileServerReal.constructor` | src/util/fileserver.rs:161-167 | an empty table that satisfies the invariant |
| `FileServer.FileServerReal.GetHandle` | src/util/fileserver.rs:256-305 | a missing file fails with "file not found" and changes nothing; with u16::MAX handles it fails with "exhausted number of file handles"; a known name yields its handle; a new name yields handle = previous count, and is added to the map and appended to the name vector; the invariant (name vector and map are inverse, at most u16::MAX names) is preserved |
| `FileServer.FileServerReal.GetFilename` | src/util/fileserver.rs:308-314 | the name returned for a handle is registered under exactly that handle |
| `FileServer.MockHandleOrder` | src/util/fileserver.rs:141-145 | adding "a", "b", "a" to a fresh mock gives them handles 0, 1, 0 |
| `FileServer.RealHandleOrder` | src/util/fileserver.rs:287-304 | asking a fresh real server for existing files "a", "b", "a" gives handles 0, 1, 0 |

## Left out

- The expression evaluator `asm::resolver::eval` and `Value::expect_error_or_bigint` are not part of this model. Their combined result is the input `Evaluation`. It is either a failure, with the diagnostic already recorded by them, or an integer or error-sentinel value.
- Span bookkeeping, the `Report` type and its formatting are not part of this model. A report is a sequence of (description, optional span) messages.
- The `debug_iterations` print of the unstable address in `resolve_addr` is output only.
- The multi-pass convergence driver that calls `resolve_addr` is not part of this model. Nothing in the model loops over passes.
- BigInt width tags are not modelled. The comparison of the new and previous address in `resolve_addr` and its bank arithmetic are taken to depend on the integer value only, so addresses are unbounded `int`s.
- `usize` is taken to be 64 bits wide. `UsizeMax` fixes the host width.
- `ast_addr.item_ref.unwrap()` and out-of-range `get_mut`/`get` indices panic in the source. `ResolveAddr` requires a valid directive reference, and a valid bank reference on the last pass.
- The mock's `add` and `write_bytes` convert the next index to a 16-bit handle on every call, even for a known name, and panic once the map holds 65536 names. `add` also panics when it indexes past `handles_to_filename`. `Add` requires `CanAdd` instead, and `WriteBytes` requires at most `u16::MAX` names.
- `get_filename` and `get_bytes` panic on a handle past the end of their vector. The model requires the handle to be in range.
- `Path::exists` in `FileServerReal::get_handle` is the boolean parameter `fileExists`.
- `FileServerReal::get_bytes` and `FileServerReal::write_bytes` are file-system I/O and are not modelled.
- `get_str`, with its lossy UTF-8 decoding, and `get_excerpt` are not modelled. Their decoding and excerpt logic lives outside the modelled files.
- `get_handle_unwrap` and `get_str_unwrap` are not modelled. They only unwrap results and panic on error.
- The `FileServer` trait is not modelled as an interface. Each of its two implementations is a separate class.
- The generic `Into<String>` and `Into<Vec<u8>>` conversions of `add` are left out. Names are strings and contents are byte sequences.
