/**
 * The test jig itself: the program's globals and hardware outputs as the
 * fields of one object, and one test session (a press of the button) as
 * a sequence of methods over them. The ERP, the analytics endpoint, the
 * flashing tools and the UART are the `Responses` a session receives;
 * what the station sends out, runs or writes is recorded, in order, in
 * `effects`. `sys.exit()` and an uncaught exception end the session with
 * an `Abort` and release nothing: both indicators keep blinking, and the
 * power and the port stay as they were at that point.
 */
module Station {
  import opened Wrappers
  import opened Text
  import opened HexCodec
  import opened IntelHex
  import opened BoardId
  import opened FlashTool
  import opened UartProtocol

  datatype Led = Off | On | Blinking

  /** The external programs: JLinkExe with its three scripts, and `srec_cat`. */
  datatype Tool = EraseAll | UploadTesting | UploadProduction | MergeHex

  /** What the station does outside its own variables. */
  datatype Effect =
    | DevicePosted(returned: Option<string>)   // the Device record sent to the ERP; `None` is sent as the text `None`
    | ToolRun(tool: Tool)
    | PowerCycled                               // `pwr_reset`: power off, half a second, on
    | ProductHexWritten(contents: string)       // `product.hex` as `gen_product_hex` writes it
    | TestReportPosted(passed: bool, deviceId: string, tests: seq<TestRecord>)
    | BoardInsertPosted(id: string)             // the analytics mutation of `update_hasura`

  /** Why a session ended early. */
  datatype Abort =
    | ServerError                          // an HTTP request failed: `sys.exit()`
    | ToolFailure(outcome: ToolOutcome)    // `analyze_output` exited
    | MalformedProductVersion              // `new_board_id` raised `IndexError`
    | UndecodableLine                      // `str(line, 'ascii')` raised

  /** What the outside world answers during one session, in the order the station asks. */
  datatype Responses = Responses(
    today: Date,
    previousDevice: DeviceQuery,
    devicePostOk: bool,
    testEraseOutput: string,
    testUploadOutput: string,
    uart: seq<seq<Byte>>,
    reportPostOk: bool,
    mergeOutput: string,
    prodEraseOutput: string,
    prodUploadOutput: string,
    insertOk: bool)

  /** `analyze_output` as the caller sees it: it returns, or it ends the program. */
  function Judge(outputText: string): (r: Option<Abort>)
    ensures r.None? <==> AnalyzeOutput(outputText) == Succeeded
    ensures r.Some? ==> r == Some(ToolFailure(AnalyzeOutput(outputText))) && r.value.outcome != Succeeded
  {
    if AnalyzeOutput(outputText) == Succeeded then None else Some(ToolFailure(AnalyzeOutput(outputText)))
  }

  /** How `get_board_id`'s ending ends the session, if it does. */
  function AllocationAbort(a: Allocation): (r: Option<Abort>)
    ensures r.None? <==> a.Allocated? || a.NoneReturned?
  {
    match a
    case ServerExit => Some(ServerError)
    case BadProductVersion => Some(MalformedProductVersion)
    case _ => None
  }

  /** What `get_board_id` returns when it returns. */
  function Returned(a: Allocation): (r: Option<string>)
    ensures r.Some? <==> a.Allocated?
  {
    if a.Allocated? then Some(a.id) else None
  }

  /** The tool runs and power cycle of `start_testing` when every tool succeeds. */
  const TestingFlash: seq<Effect> := [ToolRun(EraseAll), ToolRun(UploadTesting), PowerCycled]

  /** What `flash_prod_firmware` does when every tool succeeds. */
  function ProductionFlash(boardId: string): seq<Effect>
  {
    [ProductHexWritten(ProductHexContents(boardId)), ToolRun(MergeHex), PowerCycled,
     ToolRun(EraseAll), ToolRun(UploadProduction), PowerCycled]
  }

  /** `create_device` and `start_testing` both return: allocation, the Device post and both test-flash tools succeed. */
  predicate PreparationSucceeds(a: Allocation, env: Responses)
  {
    AllocationAbort(a).None? && env.devicePostOk
    && Judge(env.testEraseOutput).None? && Judge(env.testUploadOutput).None?
  }

  /** `flash_prod_firmware` returns: the merge, the erase and the upload all succeed. */
  predicate ProductionSucceeds(env: Responses)
  {
    Judge(env.mergeOutput).None? && Judge(env.prodEraseOutput).None? && Judge(env.prodUploadOutput).None?
  }

  /** How `create_device` and `start_testing` end the session, if they do: the first failing step. */
  function PreparationAbort(a: Allocation, env: Responses): (r: Option<Abort>)
    ensures r.None? <==> PreparationSucceeds(a, env)
    ensures r.Some? ==> r.value != UndecodableLine
  {
    if AllocationAbort(a).Some? then AllocationAbort(a)
    else if !env.devicePostOk then Some(ServerError)
    else if Judge(env.testEraseOutput).Some? then Judge(env.testEraseOutput)
    else Judge(env.testUploadOutput)
  }

  /** How the end of a passing session stops, if it does: the first failing tool, then the analytics post. */
  function ProductionAbort(env: Responses): (r: Option<Abort>)
    ensures r.None? <==> ProductionSucceeds(env) && env.insertOk
    ensures r.Some? ==> r.value != UndecodableLine
  {
    if Judge(env.mergeOutput).Some? then Judge(env.mergeOutput)
    else if Judge(env.prodEraseOutput).Some? then Judge(env.prodEraseOutput)
    else if Judge(env.prodUploadOutput).Some? then Judge(env.prodUploadOutput)
    else if !env.insertOk then Some(ServerError)
    else None
  }

  /** How a session that got through preparation ends: at the reading, the report, or production after a pass. */
  function ReadingAbort(reading: Reading, env: Responses): (r: Option<Abort>)
    ensures r.None? <==> reading.Completed? && env.reportPostOk && (Verdict(reading) ==> ProductionSucceeds(env) && env.insertOk)
    ensures r == Some(UndecodableLine) <==> reading.Undecodable?
  {
    if reading.Undecodable? then Some(UndecodableLine)
    else if !env.reportPostOk then Some(ServerError)
    else if Verdict(reading) then ProductionAbort(env)
    else None
  }

  /** How a whole session ends: preparation, then the UART reading and the report, then production. */
  function SessionAbort(a: Allocation, reading: Reading, env: Responses): (r: Option<Abort>)
    ensures r.None? <==>
      (PreparationSucceeds(a, env) && reading.Completed? && env.reportPostOk
       && (Verdict(reading) ==> ProductionSucceeds(env) && env.insertOk))
    ensures r == Some(UndecodableLine) <==> PreparationSucceeds(a, env) && reading.Undecodable?
  {
    if PreparationAbort(a, env).Some? then PreparationAbort(a, env) else ReadingAbort(reading, env)
  }

  /** What `start_testing` records: the tool runs up to the first failure, and the restart when both succeed. */
  function TestingEffects(eraseOutput: string, uploadOutput: string): (r: seq<Effect>)
    ensures ToolRun(UploadTesting) in r <==> Judge(eraseOutput).None?
    ensures PowerCycled in r <==> Judge(eraseOutput).None? && Judge(uploadOutput).None?
  {
    if Judge(eraseOutput).Some? then [ToolRun(EraseAll)]
    else if Judge(uploadOutput).Some? then [ToolRun(EraseAll), ToolRun(UploadTesting)]
    else TestingFlash
  }

  /** What `create_device` and `start_testing` record, up to the step that ends the session. */
  function PreparationEffects(a: Allocation, env: Responses): (r: seq<Effect>)
    ensures |r| == 0 <==> AllocationAbort(a).Some?
    ensures PreparationAbort(a, env).None? ==> r == [DevicePosted(Returned(a))] + TestingFlash
    ensures NoProductionFrom(r, 0)
  {
    if AllocationAbort(a).Some? then []
    else if !env.devicePostOk then [DevicePosted(Returned(a))]
    else [DevicePosted(Returned(a))] + TestingEffects(env.testEraseOutput, env.testUploadOutput)
  }

  /**
   * What the end of a passing session records for board `id`, up to the
   * step that ends it: `product.hex`, the merge, a restart, the erase, the
   * upload, a restart and the analytics insert.
   */
  function ProductionEffects(id: string, env: Responses): (r: seq<Effect>)
    ensures ToolRun(UploadProduction) in r <==> Judge(env.mergeOutput).None? && Judge(env.prodEraseOutput).None?
    ensures BoardInsertPosted(id) in r <==> ProductionSucceeds(env)
    ensures ProductionAbort(env).None? ==> r == ProductionFlash(id) + [BoardInsertPosted(id)]
  {
    var written := ProductHexWritten(ProductHexContents(id));
    if Judge(env.mergeOutput).Some? then [written, ToolRun(MergeHex)]
    else if Judge(env.prodEraseOutput).Some? then [written, ToolRun(MergeHex), PowerCycled, ToolRun(EraseAll)]
    else if Judge(env.prodUploadOutput).Some? then
      [written, ToolRun(MergeHex), PowerCycled, ToolRun(EraseAll), ToolRun(UploadProduction)]
    else ProductionFlash(id) + [BoardInsertPosted(id)]
  }

  /**
   * What a session that got through preparation records for board `id`,
   * up to the step that ends it: the report once the reading completes,
   * and production after a pass the report post survived.
   */
  function ReadingEffects(reading: Reading, id: string, env: Responses): (r: seq<Effect>)
    ensures |r| == 0 <==> reading.Undecodable?
    ensures ToolRun(UploadProduction) in r || BoardInsertPosted(id) in r ==>
      reading.Completed? && Verdict(reading) && env.reportPostOk
  {
    if reading.Undecodable? then []
    else
      [TestReportPosted(Verdict(reading), id, reading.tests)]
      + (if env.reportPostOk && Verdict(reading) then ProductionEffects(id, env) else [])
  }

  /** What a whole session records, up to the step that ends it. */
  function SessionEffects(a: Allocation, reading: Reading, id: string, env: Responses): (r: seq<Effect>)
    ensures PreparationEffects(a, env) <= r
    ensures ToolRun(UploadProduction) in r || BoardInsertPosted(id) in r ==>
      PreparationSucceeds(a, env) && reading.Completed? && Verdict(reading) && env.reportPostOk
  {
    PreparationEffects(a, env) + (if PreparationAbort(a, env).Some? then [] else ReadingEffects(reading, id, env))
  }

  /** A session that ends in preparation ends as preparation does, having recorded what preparation recorded. */
  lemma PreparationExit(a: Allocation, reading: Reading, id: string, env: Responses)
    requires PreparationAbort(a, env).Some?
    ensures !PreparationSucceeds(a, env)
    ensures SessionAbort(a, reading, env) == PreparationAbort(a, env)
    ensures SessionEffects(a, reading, id, env) == PreparationEffects(a, env)
  {
    assert PreparationEffects(a, env) + [] == PreparationEffects(a, env);
  }

  /**
   * A session that gets through preparation: what the reading, the report
   * and production leave behind, put together with what preparation
   * recorded, is what the whole session promises.
   */
  lemma PreparationThrough(a: Allocation, reading: Reading, id: string, env: Responses,
                           before: seq<Effect>, prepared: seq<Effect>, effects: seq<Effect>,
                           passed: bool, abort: Option<Abort>, power: bool, serialOpen: bool)
    requires PreparationAbort(a, env).None?
    requires prepared == before + PreparationEffects(a, env) && NoProductionFrom(prepared, |before|)
    requires passed == (reading.Completed? && Verdict(reading)) && abort == ReadingAbort(reading, env)
    requires effects == prepared + ReadingEffects(reading, id, env) && serialOpen == reading.Undecodable?
    requires power <==>
      (reading.Undecodable? || (reading.Completed? && env.reportPostOk && Verdict(reading) && ProductionExitsPowered(env)))
    requires !passed ==> NoProductionFrom(effects, |prepared|)
    ensures PreparationSucceeds(a, env)
    ensures abort == SessionAbort(a, reading, env)
    ensures effects == before + SessionEffects(a, reading, id, env) && before <= effects
    ensures abort.None? ==> !power && !serialOpen
    ensures !passed ==> NoProductionFrom(effects, |before|)
  {
    assert effects == before + (PreparationEffects(a, env) + ReadingEffects(reading, id, env));
    if !passed {
      NoProductionTransitive(prepared, effects, |before|);
    }
  }

  /**
   * A reading whose report was posted, followed by the end of the session:
   * the stage ends and records what a session past preparation promises.
   */
  lemma ReportThrough(reading: Reading, id: string, env: Responses, before: seq<Effect>, reported: seq<Effect>,
                      effects: seq<Effect>, passed: bool, abort: Option<Abort>)
    requires reading.Completed? && env.reportPostOk && passed == Verdict(reading)
    requires reported == before + [TestReportPosted(passed, id, reading.tests)]
    requires effects == reported + (if passed then ProductionEffects(id, env) else [])
    requires abort == (if passed then ProductionAbort(env) else None)
    ensures abort == ReadingAbort(reading, env)
    ensures effects == before + ReadingEffects(reading, id, env)
  {
    assert ReadingEffects(reading, id, env)
      == [TestReportPosted(passed, id, reading.tests)] + (if passed then ProductionEffects(id, env) else []);
  }

  /**
   * A session that runs to the end records registration, test flashing and
   * the report, then production and the analytics insert exactly on a pass.
   */
  lemma SessionEffectsComplete(before: seq<Effect>, a: Allocation, reading: Reading, id: string, env: Responses)
    requires SessionAbort(a, reading, env).None?
    ensures reading.Completed?
    ensures before + SessionEffects(a, reading, id, env)
      == before + [DevicePosted(Returned(a))] + TestingFlash + [TestReportPosted(Verdict(reading), id, reading.tests)]
         + (if Verdict(reading) then ProductionFlash(id) + [BoardInsertPosted(id)] else [])
  {
    var report := [TestReportPosted(Verdict(reading), id, reading.tests)];
    var tail := if Verdict(reading) then ProductionFlash(id) + [BoardInsertPosted(id)] else [];
    assert ReadingEffects(reading, id, env) == report + tail;
    assert SessionEffects(a, reading, id, env) == ([DevicePosted(Returned(a))] + TestingFlash) + (report + tail);
    Regroup(before, [DevicePosted(Returned(a))], TestingFlash, report, tail);
  }

  /** Concatenation regrouped to the left. */
  lemma Regroup<T>(s0: seq<T>, s1: seq<T>, s2: seq<T>, s3: seq<T>, s4: seq<T>)
    ensures s0 + ((s1 + s2) + (s3 + s4)) == s0 + s1 + s2 + s3 + s4
  {
  }

  /**
   * An empty previous name does not end the session: the Device record is
   * posted with `device_id` set to the text `None` (board_level_testing.py
   * line 82 formats the `None` that `get_board_id` returns), and the session
   * goes on with the identifier of the session before.
   */
  lemma EmptyNameContinues(productVersion: string, manufacturerId: string, today: Date)
    ensures var a := AllocateBoardId(productVersion, manufacturerId, today, Previous(""));
      AllocationAbort(a).None? && Returned(a).None? && !a.Allocated?
  {
    AllocateEmptyName(productVersion, manufacturerId, today);
  }

  /** `flash_prod_firmware` exits after its first `pwr_reset`, with the board powered. */
  predicate ProductionExitsPowered(env: Responses)
  {
    Judge(env.mergeOutput).None? && (Judge(env.prodEraseOutput).Some? || Judge(env.prodUploadOutput).Some?)
  }

  /** From position `k` on, `es` holds neither the production upload nor the registration of the board. */
  predicate NoProductionFrom(es: seq<Effect>, k: nat)
  {
    forall j | k <= j < |es| :: es[j] != ToolRun(UploadProduction) && !es[j].BoardInsertPosted?
  }

  lemma NoProductionTransitive(a: seq<Effect>, b: seq<Effect>, k: nat)
    requires k <= |a| && a <= b && NoProductionFrom(a, k) && NoProductionFrom(b, |a|)
    ensures NoProductionFrom(b, k)
  {
    forall j | k <= j < |b| ensures b[j] != ToolRun(UploadProduction) && !b[j].BoardInsertPosted? {
      if j < |a| {
        assert b[j] == a[j];
      }
    }
  }

  class Jig {
    const productVersion: string
    const manufacturerId: string
    var currentBoardId: string
    var power: bool
    var serialOpen: bool
    var ledRed: Led
    var ledGreen: Led
    var effects: seq<Effect>

    /** Exactly one indicator is lit, steadily. */
    predicate OneLedLit()
      reads this
    {
      (ledRed == On && ledGreen == Off) || (ledRed == Off && ledGreen == On)
    }

    /**
     * The jig after start-up, once its product version and manufacturer
     * are known: green lit, power off, the port configured but closed.
     */
    constructor (productVersion: string, manufacturerId: string)
      ensures this.productVersion == productVersion && this.manufacturerId == manufacturerId
      ensures currentBoardId == "" && !power && !serialOpen
      ensures ledGreen == On && ledRed == Off && OneLedLit()
      ensures effects == []
    {
      this.productVersion := productVersion;
      this.manufacturerId := manufacturerId;
      currentBoardId := "";
      ledGreen := Off;
      ledRed := Off;
      ledGreen := On;
      power := false;
      serialOpen := false;
      effects := [];
    }

    /** `turn_on(val)`: red for 0, green for anything else, the other one dark. */
    method TurnOn(val: int)
      modifies this`ledRed, this`ledGreen
      ensures OneLedLit()
      ensures ledRed == On <==> val == 0
      ensures ledGreen == On <==> val != 0
    {
      ledRed := Off;
      ledGreen := Off;
      if val == 0 {
        ledRed := On;
      } else {
        ledGreen := On;
      }
    }

    /** `pwr_reset()`: the board is powered again afterwards, whatever it was before. */
    method PwrReset()
      modifies this`power, this`effects
      ensures power
      ensures effects == old(effects) + [PowerCycled]
    {
      power := false;
      power := true;
      effects := effects + [PowerCycled];
    }

    /** `erase_all`, `upload_testing`, `upload_prod` and `merge_hex`: run a tool and judge its output. */
    method RunTool(tool: Tool, outputText: string) returns (abort: Option<Abort>)
      modifies this`effects
      ensures effects == old(effects) + [ToolRun(tool)]
      ensures abort == Judge(outputText)
    {
      effects := effects + [ToolRun(tool)];
      abort := Judge(outputText);
    }

    /**
     * `get_board_id()`: the identifier is stored as the current one exactly
     * when it is returned; no identifier, an exit or an exception leaves the
     * current one as it was.
     */
    method GetBoardId(today: Date, reply: DeviceQuery) returns (id: Option<string>, abort: Option<Abort>)
      modifies this`currentBoardId
      ensures var a := AllocateBoardId(productVersion, manufacturerId, today, reply);
        id == Returned(a) && abort == AllocationAbort(a)
        && currentBoardId == (if a.Allocated? then a.id else old(currentBoardId))
    {
      var a := AllocateBoardId(productVersion, manufacturerId, today, reply);
      id := None;
      abort := None;
      match a
      case Allocated(next) =>
        currentBoardId := next;
        id := Some(next);
      case NoneReturned =>
      case ServerExit =>
        abort := Some(ServerError);
      case BadProductVersion =>
        abort := Some(MalformedProductVersion);
    }

    /** `create_device()`: allocate, then post the Device record with whatever `get_board_id` returned. */
    method CreateDevice(today: Date, reply: DeviceQuery, postOk: bool) returns (abort: Option<Abort>)
      modifies this`currentBoardId, this`effects
      ensures var a := AllocateBoardId(productVersion, manufacturerId, today, reply);
        currentBoardId == (if a.Allocated? then a.id else old(currentBoardId))
        && (AllocationAbort(a).Some? ==> abort == AllocationAbort(a) && effects == old(effects))
        && (AllocationAbort(a).None? ==>
              effects == old(effects) + [DevicePosted(Returned(a))]
              && abort == (if postOk then None else Some(ServerError)))
      ensures old(effects) <= effects && NoProductionFrom(effects, |old(effects)|)
    {
      var id;
      id, abort := GetBoardId(today, reply);
      if abort.Some? {
        return;
      }
      effects := effects + [DevicePosted(id)];
      if !postOk {
        abort := Some(ServerError);
      }
    }

    /** `flash_testing_firmware()`: erase, and upload the test firmware only after a good erase. */
    method FlashTestingFirmware(eraseOutput: string, uploadOutput: string) returns (abort: Option<Abort>)
      modifies this`effects
      ensures Judge(eraseOutput).Some? ==> abort == Judge(eraseOutput) && effects == old(effects) + [ToolRun(EraseAll)]
      ensures Judge(eraseOutput).None? ==>
        abort == Judge(uploadOutput) && effects == old(effects) + [ToolRun(EraseAll), ToolRun(UploadTesting)]
    {
      abort := RunTool(EraseAll, eraseOutput);
      if abort.Some? {
        return;
      }
      abort := RunTool(UploadTesting, uploadOutput);
    }

    /**
     * `start_testing()`: flash the test firmware, then restart the board.
     * Its `False` branch cannot be taken, since a failed tool run exits.
     */
    method StartTesting(eraseOutput: string, uploadOutput: string) returns (abort: Option<Abort>)
      modifies this`effects, this`power
      ensures abort.None? <==> Judge(eraseOutput).None? && Judge(uploadOutput).None?
      ensures abort == if Judge(eraseOutput).Some? then Judge(eraseOutput) else Judge(uploadOutput)
      ensures effects == old(effects) + TestingEffects(eraseOutput, uploadOutput)
      ensures abort.None? ==> power && effects == old(effects) + TestingFlash
      ensures abort.Some? ==> power == old(power)
      ensures old(effects) <= effects && NoProductionFrom(effects, |old(effects)|)
    {
      abort := FlashTestingFirmware(eraseOutput, uploadOutput);
      if abort.Some? {
        return;
      }
      PwrReset();
    }

    /**
     * `test()`: read the UART until `END` or the end of the budget, then
     * close the port, cut the power and post the report with the verdict.
     * A line that is not ASCII raises, leaving the port open and the power
     * as it was.
     */
    method Test(lines: seq<seq<Byte>>, reportOk: bool) returns (passed: bool, abort: Option<Abort>)
      modifies this`serialOpen, this`power, this`effects
      ensures ReadSession(lines).Undecodable? ==>
        abort == Some(UndecodableLine) && !passed && serialOpen && power == old(power) && effects == old(effects)
      ensures ReadSession(lines).Completed? ==>
        passed == Verdict(ReadSession(lines)) && !serialOpen && !power
        && effects == old(effects) + [TestReportPosted(passed, currentBoardId, ReadSession(lines).tests)]
        && abort == (if reportOk then None else Some(ServerError))
    {
      if !serialOpen {
        serialOpen := true;
      }
      var reading := ReadLines(lines);
      if reading.Undecodable? {
        passed, abort := false, Some(UndecodableLine);
        return;
      }
      serialOpen := false;
      power := false;
      passed := '1' in reading.lastLine;
      effects := effects + [TestReportPosted(passed, currentBoardId, reading.tests)];
      abort := if reportOk then None else Some(ServerError);
    }

    /** `gen_product_hex()`: encode the current identifier and write the three records of `product.hex`. */
    method GenProductHex()
      modifies this`effects
      ensures effects == old(effects) + [ProductHexWritten(ProductHexContents(currentBoardId))]
    {
      var productIdReg := CharToAscii(currentBoardId);
      EncodeAsciiIsLowerHex(currentBoardId);
      assert IsHexString(ProductRecordPrefix);
      HexAppend(ProductRecordPrefix, productIdReg);
      var record := GetHexLine(ProductRecordPrefix + productIdReg);
      var contents := ExtendedLinearAddressRecord + "\n" + record + "\n" + EndOfFileRecord + "\n";
      effects := effects + [ProductHexWritten(contents)];
    }

    /**
     * `flash_prod_firmware()`: write `product.hex`, merge it into the
     * production image, restart, erase, upload, restart and cut the power.
     * The first failing tool ends the session there.
     */
    method FlashProdFirmware(mergeOutput: string, eraseOutput: string, uploadOutput: string) returns (abort: Option<Abort>)
      modifies this`effects, this`power
      ensures var written := ProductHexWritten(ProductHexContents(currentBoardId));
        (Judge(mergeOutput).Some? ==>
          abort == Judge(mergeOutput) && power == old(power)
          && effects == old(effects) + [written, ToolRun(MergeHex)])
        && (Judge(mergeOutput).None? && Judge(eraseOutput).Some? ==>
          abort == Judge(eraseOutput) && power
          && effects == old(effects) + [written, ToolRun(MergeHex), PowerCycled, ToolRun(EraseAll)])
        && (Judge(mergeOutput).None? && Judge(eraseOutput).None? && Judge(uploadOutput).Some? ==>
          abort == Judge(uploadOutput) && power
          && effects == old(effects) + [written, ToolRun(MergeHex), PowerCycled, ToolRun(EraseAll), ToolRun(UploadProduction)])
      ensures abort.None? <==> Judge(mergeOutput).None? && Judge(eraseOutput).None? && Judge(uploadOutput).None?
      ensures abort.None? ==> !power && effects == old(effects) + ProductionFlash(currentBoardId)
    {
      GenProductHex();
      abort := RunTool(MergeHex, mergeOutput);
      if abort.Some? {
        return;
      }
      PwrReset();
      abort := RunTool(EraseAll, eraseOutput);
      if abort.Some? {
        return;
      }
      abort := RunTool(UploadProduction, uploadOutput);
      if abort.Some? {
        return;
      }
      PwrReset();
      power := false;
    }

    /** `update_hasura()`: post the mutation inserting the current board; a failed request exits. */
    method UpdateHasura(insertOk: bool) returns (abort: Option<Abort>)
      modifies this`effects
      ensures effects == old(effects) + [BoardInsertPosted(currentBoardId)]
      ensures abort == if insertOk then None else Some(ServerError)
    {
      effects := effects + [BoardInsertPosted(currentBoardId)];
      abort := if insertOk then None else Some(ServerError);
    }

    /**
     * The end of `button_pressed()` once the test has returned: on a pass,
     * flash the production firmware, register the board and light green;
     * otherwise light red.
     */
    method Conclude(passed: bool, env: Responses) returns (abort: Option<Abort>)
      modifies this`effects, this`power, this`ledRed, this`ledGreen
      ensures old(effects) <= effects
      ensures !passed ==> abort.None? && effects == old(effects) && power == old(power)
      ensures abort.None? ==> OneLedLit() && (ledGreen == On <==> passed)
      ensures abort.None? && passed ==>
        !power && effects == old(effects) + ProductionFlash(currentBoardId) + [BoardInsertPosted(currentBoardId)]
      ensures abort.Some? ==> ledRed == old(ledRed) && ledGreen == old(ledGreen)
      ensures abort.None? && !passed ==> power == old(power)
      ensures abort == if passed then ProductionAbort(env) else None
      ensures passed && Judge(env.mergeOutput).Some? ==> power == old(power)
      ensures passed && Judge(env.mergeOutput).None? ==> (power <==> ProductionExitsPowered(env))
      ensures effects == old(effects) + if passed then ProductionEffects(currentBoardId, env) else []
    {
      abort := None;
      if passed {
        abort := FlashProdFirmware(env.mergeOutput, env.prodEraseOutput, env.prodUploadOutput);
        if abort.Some? {
          return;
        }
        abort := UpdateHasura(env.insertOk);
        if abort.Some? {
          return;
        }
        TurnOn(1);
      } else {
        TurnOn(0);
      }
    }

    /** The start of `button_pressed()`: register the device, then flash the test firmware and restart. */
    method Prepare(env: Responses) returns (abort: Option<Abort>)
      modifies this`currentBoardId, this`effects, this`power
      ensures old(effects) <= effects && NoProductionFrom(effects, |old(effects)|)
      ensures var a := AllocateBoardId(productVersion, manufacturerId, env.today, env.previousDevice);
        currentBoardId == (if a.Allocated? then a.id else old(currentBoardId))
        && abort == PreparationAbort(a, env)
        && effects == old(effects) + PreparationEffects(a, env)
        && (abort.None? ==> power && effects == old(effects) + [DevicePosted(Returned(a))] + TestingFlash)
      ensures abort.Some? ==> power == old(power)
    {
      ghost var before := effects;
      abort := CreateDevice(env.today, env.previousDevice, env.devicePostOk);
      if abort.Some? {
        return;
      }
      ghost var afterCreate := effects;
      abort := StartTesting(env.testEraseOutput, env.testUploadOutput);
      NoProductionTransitive(afterCreate, effects, |before|);
    }

    /**
     * `button_pressed()`: one test session. A session that runs to the end
     * leaves the board unpowered, the port closed and one indicator lit
     * (green exactly on a pass), and has flashed the production firmware and
     * registered the board exactly when the board passed. A session that
     * ends early leaves both indicators blinking; whenever the board did
     * not pass, neither the production upload nor the registration happened.
     */
    method ButtonPressed(env: Responses) returns (passed: bool, abort: Option<Abort>)
      modifies this
      ensures old(effects) <= effects
      ensures abort.None? ==> !power && !serialOpen && OneLedLit() && (ledGreen == On <==> passed)
      ensures abort.Some? ==> ledRed == Blinking && ledGreen == Blinking
      ensures !passed ==> NoProductionFrom(effects, |old(effects)|)
      ensures var a := AllocateBoardId(productVersion, manufacturerId, env.today, env.previousDevice);
        currentBoardId == (if a.Allocated? then a.id else old(currentBoardId))
      ensures env.previousDevice == Previous("") ==> currentBoardId == old(currentBoardId)
      ensures var a := AllocateBoardId(productVersion, manufacturerId, env.today, env.previousDevice);
        var r := ReadSession(env.uart);
        abort == SessionAbort(a, r, env)
        && effects == old(effects) + SessionEffects(a, r, currentBoardId, env)
        && serialOpen == (if PreparationSucceeds(a, env) then r.Undecodable? else old(serialOpen))
        && (power <==> !PreparationSucceeds(a, env) || r.Undecodable?
                       || (r.Completed? && env.reportPostOk && Verdict(r) && ProductionExitsPowered(env)))
      ensures var a := AllocateBoardId(productVersion, manufacturerId, env.today, env.previousDevice);
        var r := ReadSession(env.uart);
        abort.None? ==>
          r.Completed? && passed == Verdict(r)
          && effects == old(effects) + [DevicePosted(Returned(a))] + TestingFlash
             + [TestReportPosted(passed, currentBoardId, r.tests)]
             + (if passed then ProductionFlash(currentBoardId) + [BoardInsertPosted(currentBoardId)] else [])
    {
      ledGreen := Blinking;
      ledRed := Blinking;
      power := true;
      passed := false;
      ghost var a := AllocateBoardId(productVersion, manufacturerId, env.today, env.previousDevice);
      ghost var r := ReadSession(env.uart);
      ghost var before := effects;
      abort := Prepare(env);
      if abort.Some? {
        PreparationExit(a, r, currentBoardId, env);
        return;
      }
      ghost var prepared := effects;
      passed, abort := TestAndConclude(env);
      PreparationThrough(a, r, currentBoardId, env, before, prepared, effects, passed, abort, power, serialOpen);
      if abort.None? {
        SessionEffectsComplete(before, a, r, currentBoardId, env);
      }
    }

    /**
     * The rest of `button_pressed()` once the test firmware runs: read the
     * UART and post the report, then conclude. The port is left open
     * exactly after an undecodable line.
     */
    method TestAndConclude(env: Responses) returns (passed: bool, abort: Option<Abort>)
      modifies this`serialOpen, this`power, this`effects, this`ledRed, this`ledGreen
      ensures var r := ReadSession(env.uart);
        passed == (r.Completed? && Verdict(r))
        && abort == ReadingAbort(r, env)
        && effects == old(effects) + ReadingEffects(r, currentBoardId, env)
        && serialOpen == r.Undecodable?
        && (power <==> (r.Undecodable? && old(power))
                       || (r.Completed? && env.reportPostOk && Verdict(r) && ProductionExitsPowered(env)))
      ensures abort.None? ==> OneLedLit() && (ledGreen == On <==> passed)
      ensures abort.Some? ==> ledRed == old(ledRed) && ledGreen == old(ledGreen)
      ensures !passed ==> NoProductionFrom(effects, |old(effects)|)
    {
      ghost var before := effects;
      passed, abort := Test(env.uart, env.reportPostOk);
      assert NoProductionFrom(effects, |before|) by {
        if ReadSession(env.uart).Completed? {
          assert effects[|before|].TestReportPosted?;
        }
      }
      if abort.Some? {
        return;
      }
      ghost var reported := effects;
      abort := Conclude(passed, env);
      ReportThrough(ReadSession(env.uart), currentBoardId, env, before, reported, effects, passed, abort);
    }
  }
}
