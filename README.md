# RELIC error contexts, modelled in Dafny

This project models the error-handling core of RELIC, a C library for
cryptography (`src/relic_err.c`). The model covers:

- the **error context** (`err_ctx_t`), with its reason table and its `last`
  captured error;
- its **lifecycle**: `err_core_init` and `err_core_init_default`;
- the **accessor** `err_core_get`, which picks the active context for the
  configured concurrency mode (ERRMO);
- the **consume-on-read** operations: `err_get_code` on the library context's
  status code and `err_get_msg` on the active context;
- the two **diagnostic renderers**: `err_simple_msg`, and `err_full_msg` with
  its call-stack listing.

Layout:

- `relic_err.dfy` (module `RelicErr`) holds the model.
  - The kinds are a datatype. `Caught` (ERR_CAUGHT) is one of its cases.
  - A reason table is a `map<Kind, string>`. A slot that was zeroed and
    never filled has no key, and reading it gives `None` (a null pointer).
  - The contexts are classes whose fields the methods update:
    `ErrCtx` (the error context), `CoreCtx` (the `code` field and the
    embedded error context of the library context) and `ErrState` (the
    file's globals `first_err_ctx` and `err_core_ctx`).
  - The renderers return the list of lines they would write to `stderr`.
- `format.dfy` (module `Format`) models the decimal text that `%d` prints.
  It proves that the text reads back to the printed value. The model uses
  this to show that line numbers and frame labels in the diagnostics are
  unambiguous.

Three points where the code behaves in a way a reader may not expect:

- `err_core_init_default` reinitialises the selected context on every call,
  not only on the first one. The model does the same.
- `err_get_msg` dereferences `last` without checking it, so it has no
  "nothing captured" result. `ErrState.GetMsg` therefore requires a captured
  error. After a call, `last` is `None`, so a second call is refused
  statically until the next capture.
- The simple report is `"\nERROR: <text>.\n"`. It begins with a newline.

## Model

| member | source | states |
|---|---|---|
| `RelicErr.Message` | src/relic_err.c:130-138 | every real kind has a non-empty catalog text; the sentinel has none (it is excluded by the precondition) |
| `RelicErr.MessagesDistinct` | src/relic_err.c:130-138 | different real kinds have different catalog texts |
| `RelicErr.Catalog` | src/relic_err.c:130-138 | the filled table has a key for exactly the nine real kinds and maps each one to its own catalog text |
| `RelicErr.CatalogUnique` | src/relic_err.c:130-138 | a table with exactly those nine entries is the catalog table, so "holds the catalog" pins the table down completely |
| `RelicErr.ErrCtx.Init` | src/relic_err.c:127-140 | afterwards the table holds exactly the catalog (nine entries, no sentinel slot) and `last` is null, whatever the state was before, so a second run is a full reset |
| `RelicErr.CoreCtx.constructor` | src/relic_err.c:152-155 | the library context as this file sees it: a status code that starts at STS_OK and an embedded error context, zeroed, which is the one `err_core_get` returns under ERRMO_NONE (line 144) |
| `RelicErr.ErrState.constructor` | src/relic_err.c:111-116 | at program start `err_core_ctx` is null and `first_err_ctx` is zeroed and distinct from the library context's own error context |
| `RelicErr.ErrState.Active` | src/relic_err.c:142-148 | under ERRMO_NONE the context embedded in the library context, otherwise `err_core_ctx`; only the latter can be null, and when set it is `first_err_ctx` |
| `RelicErr.ErrState.InitDefault` | src/relic_err.c:118-124 | selects `first_err_ctx` only if no context was selected; a context already selected is kept; the selected context is reinitialised on every call |
| `RelicErr.ErrState.GetCode` | src/relic_err.c:152-157 | returns the code held before the call, leaves the code at STS_OK, and changes no error context |
| `RelicErr.GetCodeTwice` | src/relic_err.c:152-157 | of two successive reads, the first returns the previous code and the second returns STS_OK |
| `RelicErr.ErrState.GetMsg` | src/relic_err.c:91-96 | requires an active context with a captured error; returns that kind and its table slot, clears `last`, and leaves the table, the code and the choice of active context alone; on a valid context the text is the kind's catalog text |
| `RelicErr.CaptureThenRead` | src/relic_err.c:91-96 | after a capture, the message read returns the captured kind with its catalog text and empties `last`; the code read returns the captured code once, then STS_OK |
| `RelicErr.ErrorLine` | src/relic_err.c:52 | the simple report line is `"\nERROR: "`, then the text, then `".\n"`, each part at a fixed position |
| `RelicErr.SimpleMsg` | src/relic_err.c:50-54 | on a given reason table: no line for the sentinel; one line for a real kind, and that line carries exactly the kind's slot between the prefix and the suffix |
| `RelicErr.ErrState.ReportSimple` | src/relic_err.c:50-54 | the simple report reads the active context's table; the context must be non-null only for a real kind; on a valid context the line carries the kind's catalog text |
| `RelicErr.SimpleMsgLines` | src/relic_err.c:50-54 | with the initialised table, the sentinel gives no line; any real kind gives exactly one line: the catalog text between `"\nERROR: "` and `".\n"` |
| `RelicErr.SimpleMsgCaughtReadsNothing` | src/relic_err.c:50-54 | the sentinel's report is empty whatever the table holds, so no slot is read |
| `RelicErr.SimpleMsgDistinguishes` | src/relic_err.c:50-54 | with the initialised table, different real kinds give different reports |
| `RelicErr.CaughtNotice` | src/relic_err.c:63 | the CAUGHT notice is `"\tCAUGHT in "`, the function name, `"() at "`, the file, a comma, the printed line number and `".\n"`, each at a fixed position |
| `RelicErr.FullErrorLine` | src/relic_err.c:65-66 | the full ERROR line is `"\nERROR in "`, the function name, `"() at "`, the file, a comma, the printed line number, `": "`, the reason text and `".\n"`, each at a fixed position |
| `RelicErr.FullMsg` | src/relic_err.c:58-87 | on a given reason table, with the trace loop: the sentinel gives only the CAUGHT notice and needs no table slot. A real kind gives the ERROR line with its slot's text. With stack capture, the header `"\tCall stack:\n"` (line 74) follows, then one line per frame `frames[i]` for `1 <= i < n-2`, labelled `i-1`. That is `max(0, n-3)` lines, at most 97. Without capture there is nothing after the ERROR line |
| `RelicErr.ErrState.ReportFull` | src/relic_err.c:58-87 | the full report reads the active context's table, which must be non-null only for a real kind; on a valid context the ERROR line carries the kind's catalog text |
| `RelicErr.ListedFrames` | src/relic_err.c:81 | the loop `for (i = 1; i < n - 2; i++)`, with its signed bounds, runs for exactly the `i` whose label `i - 1` lies in `0 .. c-1`, where `c` is the number of listed frames; so `c = n - 3` when `n >= 3`, and none are listed otherwise |
| `RelicErr.FrameLineLayout` | src/relic_err.c:82 | a listing line is `"\t\t#"`, the label's digits, one space, the frame's symbol and a newline |
| `RelicErr.FrameLineInjective` | src/relic_err.c:81-83 | a listing line determines both its label and its symbol |
| `RelicErr.CaughtNoticeDeterminesLine` | src/relic_err.c:63 | two CAUGHT notices for the same function and file are equal only for the same line number |
| `Format.NatToDecimal` | src/relic_err.c:82 | `%d` of a non-negative value is a canonical numeral (digits only, no leading zero), and it is `"0"` exactly for zero |
| `Format.IntToDecimal` | src/relic_err.c:63 | `%d` of any int is non-empty and starts with a minus sign exactly when the value is negative |
| `Format.NatRoundTrip` | src/relic_err.c:82 | reading back the digits printed for `n` gives `n` |
| `Format.NumeralRoundTrip` | src/relic_err.c:82 | printing the value of a canonical numeral gives back that numeral |
| `Format.IntRoundTrip` | src/relic_err.c:63-65 | `%d` output of any int parses back to that int |
| `Format.IntTextRoundTrip` | src/relic_err.c:63-65 | every text `%d` can print is printed for exactly the value it parses to |
| `Format.IntToDecimalInjective` | src/relic_err.c:63-65 | distinct line numbers print differently |

## Left out

- Output: `fprintf` to `stderr` is not modelled. The renderers return the
  lines they would write, in order.
- Stack capture: `backtrace`, `backtrace_symbols` and `free` are platform
  calls. The captured symbols are an input, `frames`, of at most 100
  entries. `None` stands for a platform without the facility (OPSYS other
  than LINUX).
- Concurrency: the `__thread` storage class is not modelled. An `ErrState`
  is the state of one concurrency domain, so isolation between threads is
  not shown.
- Configuration: ERRMO is a field of `ErrState`. The CHECK and VERBS build
  switches are not modelled; every operation is always present.
- `RelicErr.ErrState.InitDefault` requires a mode other than ERRMO_NONE,
  because the function is compiled only then.
- `RelicErr.ErrState.Valid` assumes that only `err_core_init_default` assigns
  `err_core_ctx`, so it is null or `&first_err_ctx`. The variable has external
  linkage, and code outside this file that points it at another context is
  not modelled.
- Library context: `core_get()` and `ctx_t` are outside this file. Only
  their `code` field and embedded error context are modelled, in `CoreCtx`.
- Constants: the MSG_* texts and the integer values of the kinds come from
  relic_err.h, and STS_OK comes from relic_core.h. Neither header is part of
  this model.
  - The nine texts in `Message` are stand-ins. The proofs use only that they
    are non-empty and pairwise distinct.
  - STS_OK is taken as 0.
- An `int` error argument outside the enumeration is not modelled, because
  `Kind` is a closed datatype.
- Capturing an error: this is done by macros in relic_err.h, which are not
  part of this model. `RelicErr.CaptureThenRead` abstracts a capture as
  setting `last` and `code`.
- `RelicErr.FullMsg` and `RelicErr.SimpleMsg` take the reason table as a
  parameter; `ErrState.ReportFull` and `ErrState.ReportSimple` pass them the
  active context's table, as `err_core_get()->reason` does.
- The renderers require the slot of a real kind to be filled. Printing a null string with `%s` is undefined behaviour in C,
  so the model does not handle that case.
