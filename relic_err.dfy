/**
 * The error-context subsystem of RELIC (src/relic_err.c): the per-domain
 * error context with its reason table and its last captured error, the
 * lifecycle that resets it, the accessor that picks the active context, the
 * consume-on-read status code and message retrieval, and the two diagnostic
 * renderers, with the output stream replaced by the list of lines written.
 */
module RelicErr {
  import opened Format

  datatype Option<T> = None | Some(value: T)

  /**
   * The error kinds: nine real failure categories and the sentinel `Caught`
   * (ERR_CAUGHT), which marks a frame that only re-reports an error that a
   * deeper frame already captured.
   */
  datatype Kind =
    | NoMemory | NoPreci | NoFile | NoRead | NoValid
    | NoBuffer | NoField | NoCurve | NoConfig
    | Caught

  /**
   * The catalog text (MSG_*) of each real kind. The texts are defined in
   * relic_err.h, which is not part of this model; the ones below stand in for
   * them (chosen of pairwise different lengths), and nothing proved here
   * depends on more than their being non-empty and pairwise distinct.
   */
  function Message(k: Kind): (m: string)
    requires k != Caught
    ensures |m| > 0
  {
    match k
    case NoMemory => "no memory"
    case NoPreci => "no precision"
    case NoFile => "no file"
    case NoRead => "read error"
    case NoValid => "invalid value"
    case NoBuffer => "buffer too small"
    case NoField => "no field"
    case NoCurve => "unsupported curve"
    case NoConfig => "invalid config"
  }

  /** Different real kinds have different catalog texts. */
  lemma MessagesDistinct(a: Kind, b: Kind)
    requires a != Caught && b != Caught
    ensures Message(a) == Message(b) ==> a == b
  {
    if a != b {
      assert |Message(a)| != |Message(b)|;
    }
  }

  /**
   * A reason table as initialisation leaves it: one entry per real kind,
   * holding that kind's catalog text, and no entry for the sentinel.
   */
  predicate IsCatalog(table: map<Kind, string>) {
    && (forall k :: k in table <==> k != Caught)
    && (forall k :: k in table ==> table[k] == Message(k))
  }

  /** The table of the nine catalog entries. */
  function Catalog(): (table: map<Kind, string>)
    ensures IsCatalog(table)
  {
    map[NoMemory := Message(NoMemory), NoPreci := Message(NoPreci),
        NoFile := Message(NoFile), NoRead := Message(NoRead),
        NoValid := Message(NoValid), NoBuffer := Message(NoBuffer),
        NoField := Message(NoField), NoCurve := Message(NoCurve),
        NoConfig := Message(NoConfig)]
  }

  /** There is only one such table. */
  lemma CatalogUnique(table: map<Kind, string>)
    requires IsCatalog(table)
    ensures table == Catalog()
  {
    assert table.Keys == Catalog().Keys;
  }

  /**
   * Reading slot `k` of a reason table: a slot that was zeroed and never
   * filled holds a null pointer, modelled as `None`.
   */
  function Reason(table: map<Kind, string>, k: Kind): Option<string> {
    if k in table then Some(table[k]) else None
  }

  /** STS_OK, the status code of "no error" (defined in relic_core.h, not part of this model). */
  const STS_OK: int := 0

  /** The largest number of frames the stack capture asks for. */
  const MaxFrames: nat := 100

  /**
   * An error context (err_ctx_t): the reason table and the last captured
   * error, `None` for a null `last`.
   */
  class ErrCtx {
    var reason: map<Kind, string>
    var last: Option<Kind>

    /** A context as it sits in zero-initialised storage, before `Init`. */
    constructor ()
      ensures reason == map[] && last == None
    {
      reason := map[];
      last := None;
    }

    /**
     * The state `Init` establishes and every other operation keeps: the full
     * catalog, and a captured kind (if any) that is a real one.
     */
    ghost predicate Valid()
      reads this
    {
      IsCatalog(reason) && last != Some(Caught)
    }

    /**
     * err_core_init: zero the whole record, fill in the nine reason slots and
     * clear `last`. The new state does not depend on the old one, so running
     * it again is a full reset that forgets any captured error.
     */
    method Init()
      modifies this
      ensures Valid() && last == None
    {
      reason, last := map[], None;
      reason := reason[NoMemory := Message(NoMemory)];
      reason := reason[NoPreci := Message(NoPreci)];
      reason := reason[NoFile := Message(NoFile)];
      reason := reason[NoRead := Message(NoRead)];
      reason := reason[NoValid := Message(NoValid)];
      reason := reason[NoBuffer := Message(NoBuffer)];
      reason := reason[NoField := Message(NoField)];
      reason := reason[NoCurve := Message(NoCurve)];
      reason := reason[NoConfig := Message(NoConfig)];
      last := None;
      assert reason == Catalog();
    }
  }

  /**
   * The part of the library context (ctx_t, reached through core_get()) that
   * this file uses: the status code and the error context embedded in it.
   */
  class CoreCtx {
    var code: int
    const errCtx: ErrCtx

    /** A library context in zero-initialised storage. */
    constructor ()
      ensures code == STS_OK
      ensures fresh(errCtx) && errCtx.reason == map[] && errCtx.last == None
    {
      code := STS_OK;
      errCtx := new ErrCtx();
    }
  }

  /**
   * ERRMO, the configured concurrency mode: `ErrmoNone` keeps the error
   * context inside the library context; every other mode uses this file's own
   * `first_err_ctx` and `err_core_ctx`, thread-local under ERRMO_SPTHREAD.
   * The source names only ERRMO_NONE and ERRMO_SPTHREAD; `ErrmoOther` stands
   * for any other setting, under which the two globals are shared.
   */
  datatype Errmo = ErrmoNone | ErrmoSpthread | ErrmoOther

  /**
   * The state this file works on for one concurrency domain: the library
   * context, the default instance `first_err_ctx` and the active-context
   * pointer `err_core_ctx`.
   */
  class ErrState {
    const mode: Errmo
    const core: CoreCtx
    const firstErrCtx: ErrCtx
    var errCoreCtx: ErrCtx?

    /** `err_core_ctx` is either still null or points at the default instance. */
    ghost predicate Valid()
      reads this
    {
      firstErrCtx != core.errCtx && (errCoreCtx == null || errCoreCtx == firstErrCtx)
    }

    /** Program start: the file's globals are zero-initialised. */
    constructor (mode: Errmo, core: CoreCtx)
      ensures Valid()
      ensures this.mode == mode && this.core == core
      ensures fresh(firstErrCtx) && firstErrCtx.reason == map[] && firstErrCtx.last == None
      ensures errCoreCtx == null
    {
      this.mode := mode;
      this.core := core;
      firstErrCtx := new ErrCtx();
      errCoreCtx := null;
    }

    /**
     * err_core_get: under ErrmoNone the context embedded in the library
     * context, otherwise whatever `err_core_ctx` points at, which is null until
     * `InitDefault` has run and the default instance afterwards.
     */
    function Active(): (c: ErrCtx?)
      reads this
      ensures mode == ErrmoNone ==> c == core.errCtx
      ensures mode != ErrmoNone ==> c == errCoreCtx
      ensures c == null ==> mode != ErrmoNone
      ensures Valid() && mode != ErrmoNone && c != null ==> c == firstErrCtx
    {
      if mode == ErrmoNone then core.errCtx else errCoreCtx
    }

    /**
     * err_core_init_default (compiled only when ERRMO is not ERRMO_NONE):
     * select the default instance if no context is selected yet, then
     * reinitialise the selected context, on every call.
     */
    method InitDefault()
      requires Valid() && mode != ErrmoNone
      modifies this`errCoreCtx, firstErrCtx
      ensures Valid()
      ensures errCoreCtx == firstErrCtx && Active() == firstErrCtx
      ensures old(errCoreCtx) != null ==> errCoreCtx == old(errCoreCtx)
      ensures firstErrCtx.Valid() && firstErrCtx.last == None
    {
      if errCoreCtx == null {
        errCoreCtx := firstErrCtx;
      }
      // err_core_ctx now points at first_err_ctx, which is what gets reinitialised
      assert errCoreCtx == firstErrCtx;
      firstErrCtx.Init();
    }

    /**
     * err_get_code: return the status code and reset it to STS_OK. No error
     * context is touched.
     */
    method GetCode() returns (r: int)
      modifies core`code
      ensures r == old(core.code)
      ensures core.code == STS_OK
      ensures unchanged(core.errCtx) && unchanged(firstErrCtx) && unchanged(this)
    {
      r := core.code;
      core.code := STS_OK;
    }

    /**
     * err_get_msg: return the captured kind and its reason slot and clear
     * `last`. The source dereferences the active context and its `last`
     * without checking either.
     */
    method GetMsg() returns (e: Kind, msg: Option<string>)
      requires Active() != null && Active().last.Some?
      modifies Active()`last
      ensures Active() == old(Active())
      ensures e == old(Active().last).value
      ensures msg == Reason(Active().reason, e)
      ensures Active().last == None
      ensures Active().reason == old(Active().reason) && core.code == old(core.code)
      ensures old(Active().Valid()) ==> Active().Valid() && msg == Some(Message(e))
    {
      var ctx := Active();
      e := ctx.last.value;
      msg := Reason(ctx.reason, e);
      ctx.last := None;
    }

    /**
     * err_simple_msg as the source calls it: the table is the active
     * context's. Under the sentinel the context is not dereferenced, so it may
     * still be null.
     */
    function ReportSimple(k: Kind): (lines: seq<string>)
      reads this, Active()
      requires k != Caught ==> Active() != null && k in Active().reason
      ensures k == Caught ==> lines == []
      ensures k != Caught ==> lines == SimpleMsg(Active().reason, k)
      ensures k != Caught && Active().Valid() ==> lines == [ErrorLine(Message(k))]
    {
      if k == Caught then [] else SimpleMsg(Active().reason, k)
    }

    /**
     * err_full_msg as the source calls it: the table is the active context's,
     * which is dereferenced only for a real kind.
     */
    method ReportFull(func: string, file: string, line: int, k: Kind,
                      frames: Option<seq<string>>) returns (lines: seq<string>)
      requires k != Caught ==> Active() != null && k in Active().reason
      requires frames.Some? ==> |frames.value| <= MaxFrames
      ensures k == Caught ==> lines == [CaughtNotice(func, file, line)]
      ensures k != Caught ==> IsFullReport(Active().reason, func, file, line, k, frames, lines)
      ensures k != Caught && Active().Valid() ==>
        lines[0] == FullErrorLine(func, file, line, Message(k))
    {
      var ctx := Active();
      if k == Caught {
        lines := FullMsg(map[], func, file, line, k, frames);
      } else {
        lines := FullMsg(ctx.reason, func, file, line, k, frames);
      }
    }
  }

  /** Two successive reads of the status code: the second one always sees STS_OK. */
  method GetCodeTwice(s: ErrState) returns (first: int, second: int)
    modifies s.core`code
    ensures first == old(s.core.code)
    ensures second == STS_OK && s.core.code == STS_OK
  {
    first := s.GetCode();
    second := s.GetCode();
  }

  /** The line err_simple_msg writes for a real kind: the text between a fixed prefix and suffix. */
  function ErrorLine(text: string): (s: string)
    ensures |s| == 10 + |text|
    ensures s[..8] == "\nERROR: " && s[8..8 + |text|] == text && s[8 + |text|..] == ".\n"
  {
    "\nERROR: " + text + ".\n"
  }

  /**
   * The lines err_simple_msg writes, given the reason table it reads: nothing
   * for the sentinel, otherwise one line carrying the kind's slot. Only the
   * slot of a real kind is read.
   */
  function SimpleMsg(reason: map<Kind, string>, k: Kind): (lines: seq<string>)
    requires k != Caught ==> k in reason
    ensures |lines| == if k == Caught then 0 else 1
    ensures k != Caught ==> |lines[0]| == 10 + |reason[k]| && lines[0][8..|lines[0]| - 2] == reason[k]
  {
    if k == Caught then [] else [ErrorLine(reason[k])]
  }

  /**
   * With the table `Init` installs, the simple report is empty exactly for
   * the sentinel and otherwise one line that carries the kind's catalog text
   * between the fixed prefix and suffix.
   */
  lemma SimpleMsgLines(k: Kind)
    ensures |SimpleMsg(Catalog(), k)| == if k == Caught then 0 else 1
    ensures k != Caught ==>
      var line := SimpleMsg(Catalog(), k)[0];
      |line| == 10 + |Message(k)| &&
      line[..8] == "\nERROR: " &&
      line[8..8 + |Message(k)|] == Message(k) &&
      line[8 + |Message(k)|..] == ".\n"
  {
  }

  /** The simple report of the sentinel is the same whatever the table: no slot is read. */
  lemma SimpleMsgCaughtReadsNothing(r1: map<Kind, string>, r2: map<Kind, string>)
    ensures SimpleMsg(r1, Caught) == SimpleMsg(r2, Caught) == []
  {
  }

  /** After `Init`, different real kinds produce different simple reports. */
  lemma SimpleMsgDistinguishes(a: Kind, b: Kind)
    requires a != Caught && b != Caught
    ensures SimpleMsg(Catalog(), a) == SimpleMsg(Catalog(), b) ==> a == b
  {
    if SimpleMsg(Catalog(), a) == SimpleMsg(Catalog(), b) {
      var t := Catalog();
      assert t[a] == Message(a) && t[b] == Message(b);
      MessagesDistinct(a, b);
    }
  }

  /** Where the middle part of a three-part concatenation sits. */
  lemma Embedded(pre: string, x: string, post: string)
    ensures var s := pre + x + post;
      s[..|pre|] == pre && s[|pre|..|pre| + |x|] == x && s[|pre| + |x|..] == post
  {
  }

  /**
   * The notice err_full_msg writes for the sentinel: the function name after
   * a fixed prefix, then the file, then the printed line number.
   */
  function CaughtNotice(func: string, file: string, line: int): (s: string)
    ensures |s| == 20 + |func| + |file| + |IntToDecimal(line)|
    ensures s[..11] == "\tCAUGHT in " && s[11..11 + |func|] == func
    ensures s[11 + |func|..17 + |func|] == "() at " && s[17 + |func|..17 + |func| + |file|] == file
    ensures s[17 + |func| + |file|] == ','
    ensures s[18 + |func| + |file|..|s| - 2] == IntToDecimal(line) && s[|s| - 2..] == ".\n"
  {
    var a := "\tCAUGHT in " + func + "() at ";
    var b := a + file + ",";
    var s := b + IntToDecimal(line) + ".\n";
    Embedded("\tCAUGHT in ", func, "() at ");
    Embedded(a, file, ",");
    Embedded(b, IntToDecimal(line), ".\n");
    assert s[..|a|] == a && s[..|b|] == b;
    s
  }

  /**
   * The first line err_full_msg writes for a real kind: the function name,
   * the file and the printed line number laid out as in the CAUGHT notice,
   * then ": " and the reason text before the closing ".\n".
   */
  function FullErrorLine(func: string, file: string, line: int, text: string): (s: string)
    ensures |s| == 21 + |func| + |file| + |IntToDecimal(line)| + |text|
    ensures s[..10] == "\nERROR in " && s[10..10 + |func|] == func
    ensures s[10 + |func|..16 + |func|] == "() at " && s[16 + |func|..16 + |func| + |file|] == file
    ensures var d, p := IntToDecimal(line), 16 + |func| + |file|;
      s[p] == ',' && s[p + 1..p + 1 + |d|] == d && s[p + 1 + |d|..p + 3 + |d|] == ": "
    ensures s[|s| - 2 - |text|..|s| - 2] == text && s[|s| - 2..] == ".\n"
  {
    var a := "\nERROR in " + func + "() at ";
    var mid := "," + IntToDecimal(line) + ": ";
    var b := a + file + mid;
    var s := b + text + ".\n";
    Embedded("\nERROR in ", func, "() at ");
    Embedded(a, file, mid);
    Embedded(",", IntToDecimal(line), ": ");
    Embedded(b, text, ".\n");
    assert s[..|a|] == a && s[..|b|] == b;
    s
  }

  /** The header err_full_msg writes before the stack listing. */
  const CallStackHeader: string := "\tCall stack:\n"

  /** One line of the call-stack listing: a frame label and a frame's symbol. */
  function FrameLine(index: nat, symbol: string): string {
    "\t\t#" + NatToDecimal(index) + " " + symbol + "\n"
  }

  /**
   * Where the parts of a listing line sit: the label's digits after a fixed
   * prefix, one space, the frame's symbol, and a newline.
   */
  lemma FrameLineLayout(index: nat, symbol: string)
    ensures var l, a := FrameLine(index, symbol), NatToDecimal(index);
      |l| == 5 + |a| + |symbol| && l[..3] == "\t\t#" && l[3..3 + |a|] == a &&
      l[3 + |a|] == ' ' && l[4 + |a|..|l| - 1] == symbol && l[|l| - 1] == '\n'
  {
  }

  /**
   * One pass of the trace loop `for (i = 1; i < n - 2; i++)`, with the signed
   * comparison of the source.
   */
  predicate TraceStep(n: int, i: int) {
    1 <= i < n - 2
  }

  /**
   * The number of frames listed out of `n` captured: the loop runs for
   * exactly the values `i` with `i - 1` in `0 .. c - 1`, which leaves out
   * the first frame and the last two.
   */
  function ListedFrames(n: nat): (c: nat)
    ensures forall i :: TraceStep(n, i) <==> 0 <= i - 1 < c
    ensures n >= 3 ==> c + 3 == n
    ensures n < 3 ==> c == 0
  {
    if n >= 3 then n - 3 else 0
  }

  /**
   * What err_full_msg writes, given the reason table it reads. For the
   * sentinel only the CAUGHT notice. For a real kind the ERROR line with the
   * kind's slot and, when the platform captures stack frames (`frames` is
   * `Some`), the call-stack header and one line per frame `frames[i]` with
   * `1 <= i < n - 2`, labelled `i - 1`.
   */
  predicate IsFullReport(reason: map<Kind, string>, func: string, file: string, line: int,
                         k: Kind, frames: Option<seq<string>>, lines: seq<string>)
    requires k != Caught ==> k in reason
  {
    && (k == Caught ==> lines == [CaughtNotice(func, file, line)])
    && (k != Caught ==> |lines| > 0 && lines[0] == FullErrorLine(func, file, line, reason[k]))
    && (k != Caught && frames.None? ==> |lines| == 1)
    && (k != Caught && frames.Some? ==>
          && |lines| == 2 + ListedFrames(|frames.value|)
          && lines[1] == CallStackHeader
          && (forall i :: 1 <= i < |frames.value| - 2 ==> lines[i + 1] == FrameLine(i - 1, frames.value[i])))
  }

  /**
   * err_full_msg on a given reason table, with its trace loop. For the
   * sentinel it reads no reason slot: its precondition does not even ask for
   * the table to hold one.
   */
  method FullMsg(reason: map<Kind, string>, func: string, file: string, line: int,
                 k: Kind, frames: Option<seq<string>>) returns (lines: seq<string>)
    requires k != Caught ==> k in reason
    requires frames.Some? ==> |frames.value| <= MaxFrames
    ensures IsFullReport(reason, func, file, line, k, frames, lines)
    ensures |lines| <= 2 + MaxFrames
  {
    if k == Caught {
      lines := [CaughtNotice(func, file, line)];
    } else {
      lines := [FullErrorLine(func, file, line, reason[k])];
      if frames.Some? {
        var symbols := frames.value;
        var n := |symbols|;
        lines := lines + [CallStackHeader];
        var i := 1;
        while i < n - 2
          invariant 1 <= i
          invariant n >= 3 ==> i <= n - 2
          invariant n < 3 ==> i == 1
          invariant |lines| == i + 1
          invariant lines[0] == FullErrorLine(func, file, line, reason[k])
          invariant lines[1] == CallStackHeader
          invariant forall j :: 1 <= j < i ==> lines[j + 1] == FrameLine(j - 1, symbols[j])
        {
          lines := lines + [FrameLine(i - 1, symbols[i])];
          i := i + 1;
        }
      }
    }
  }

  /**
   * A listing line determines both its label and its symbol, so the labels
   * 0, 1, ... written by `FullMsg` identify the frames unambiguously.
   */
  lemma FrameLineInjective(i: nat, j: nat, s: string, t: string)
    ensures FrameLine(i, s) == FrameLine(j, t) ==> i == j && s == t
  {
    if FrameLine(i, s) == FrameLine(j, t) {
      FrameLineLayout(i, s);
      FrameLineLayout(j, t);
      NatRoundTrip(i);
      NatRoundTrip(j);
    }
  }

  /** The CAUGHT notice names the reporting function, file and line it was given. */
  lemma CaughtNoticeDeterminesLine(func: string, file: string, l1: int, l2: int)
    ensures CaughtNotice(func, file, l1) == CaughtNotice(func, file, l2) ==> l1 == l2
  {
    if CaughtNotice(func, file, l1) == CaughtNotice(func, file, l2) {
      var p := "\tCAUGHT in " + func + "() at " + file + ",";
      var d1, d2 := IntToDecimal(l1), IntToDecimal(l2);
      assert CaughtNotice(func, file, l1) == p + d1 + ".\n";
      assert CaughtNotice(func, file, l2) == p + d2 + ".\n";
      assert |d1| == |d2|;
      assert d1 == CaughtNotice(func, file, l1)[|p|..|p| + |d1|];
      assert d2 == CaughtNotice(func, file, l2)[|p|..|p| + |d2|];
      IntToDecimalInjective(l1, l2);
    }
  }

  /**
   * A captured error is delivered once: after `GetMsg` clears `last`, the
   * context has nothing left to deliver until the next capture. The capture
   * itself is done by the throwing macros of relic_err.h, which are not part
   * of this model; here it is abstracted as setting `last` and `code`.
   */
  method CaptureThenRead(s: ErrState, k: Kind, code: int) returns (e: Kind, msg: Option<string>, first: int, second: int)
    requires s.Valid() && s.Active() != null && s.Active().Valid()
    requires k != Caught
    modifies s.Active(), s.core`code
    ensures e == k && msg == Some(Message(k))
    ensures first == code && second == STS_OK
    ensures s.Active().last == None && s.Active().Valid()
  {
    var ctx := s.Active();
    ctx.last := Some(k);
    s.core.code := code;
    e, msg := s.GetMsg();
    first := s.GetCode();
    second := s.GetCode();
  }
}
