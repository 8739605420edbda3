/**
 * The HTTP handlers with decisions of their own: `file_content` (read or
 * write one file of the checkout) and the four dev-server handlers, which
 * share one mutable slot, `app[DEV_SERVER]`.
 *
 * The spawned process is abstract: its pid, the output chunks `read(1000)`
 * returns, the outcome of each bounded `wait` (`None` for a timeout) and the
 * clock reading are parameters; the UTF-8 decoder of the log is an opaque
 * function that fails with `None`.
 */
module Http {
  import opened Wrappers
  import opened PyStr
  import opened Json

  type byte = x: int | 0 <= x < 256

  /** What a handler answers. */
  datatype Body =
    | Empty                      // a bare status
    | Message(text: string)      // an error body
    | Location(url: string)      // a 307 redirect
    | Api(data: Json)            // `api_response(data)`
    | Bytes(content: seq<byte>)  // raw file content
    | Crash                      // the handler raised or returned nothing: the server's own 500

  datatype Response = Response(status: int, body: Body)

  // ---------------------------------------------------------------------------
  // file_content
  // ---------------------------------------------------------------------------

  /**
   * What the sanitised path names on disk: nothing in an existing directory,
   * a directory, a regular file, nothing because a directory on the way is
   * missing (reading or writing raises `FileNotFoundError`), or nothing
   * because a step on the way is a regular file (`NotADirectoryError`).
   */
  datatype FileState = Missing | Directory | Regular(content: seq<byte>) | NoParent | BelowFile

  /** The reply of `file_content`, and the bytes it writes to the path, if any. */
  datatype FileReply = FileReply(resp: Response, write: Option<seq<byte>>)

  function IsWriteVerb(verb: string): bool
  {
    verb == "POST" || verb == "PUT"
  }

  /**
   * `file_content` for request method `verb` on `path`, whose sanitised
   * target is `target`; `form` is the posted form, each field already
   * encoded. A directory is refused before the method is looked at; a
   * write needs a `content` field and answers 200 or 201 after whether the
   * file existed before the write; any other method gets no response. Only
   * `FileNotFoundError` from a read is caught: every other failure of the
   * read or the write escapes the handler, and the server answers 500.
   */
  function FileContent(verb: string, path: string, target: FileState, form: map<string, seq<byte>>): (r: FileReply)
    ensures target.Directory? ==> r.resp.status == 403 && r.write.None?
    ensures r.write.Some? <==> IsWriteVerb(verb) && (target.Missing? || target.Regular?) && "content" in form
    ensures r.write.Some? ==> r.write.value == form["content"] && r.resp.status == (if target.Regular? then 200 else 201)
    ensures IsWriteVerb(verb) && !target.Directory? && "content" !in form ==> r.resp.status == 400
    ensures IsWriteVerb(verb) && (target.NoParent? || target.BelowFile?) && "content" in form ==>
      r.resp == Response(500, Crash)
    ensures verb == "GET" && target.Regular? ==> r.resp == Response(200, Bytes(target.content))
    ensures verb == "GET" && (target.Missing? || target.NoParent?) ==> r.resp.status == 404
    ensures verb == "GET" && target.BelowFile? ==> r.resp == Response(500, Crash)
    ensures verb != "GET" && !IsWriteVerb(verb) && !target.Directory? ==> r.resp.body.Crash?
  {
    if target.Directory? then
      FileReply(Response(403, Message("403: directory not file: \"" + path + "\"\n")), None)
    else if verb == "GET" then
      match target
      case Regular(content) => FileReply(Response(200, Bytes(content)), None)
      case BelowFile => FileReply(Response(500, Crash), None)
      case _ => FileReply(Response(404, Message("404: file not found: \"" + path + "\"\n")), None)
    else if IsWriteVerb(verb) then
      var existed := target.Regular?;
      if "content" !in form then FileReply(Response(400, Message("400: content not found in post\n")), None)
      else if target.NoParent? || target.BelowFile? then FileReply(Response(500, Crash), None)
      else FileReply(Response(if existed then 200 else 201, Empty), Some(form["content"]))
    else
      FileReply(Response(500, Crash), None)
  }

  // ---------------------------------------------------------------------------
  // The dev-server slot
  // ---------------------------------------------------------------------------

  const StatusUrl := "/dev/status"
  const StartUrl := "/dev/start"

  /** The spawned dev server: its exit code once known, and whether it was sent `terminate`. */
  datatype Process = Process(pid: int, returncode: Option<int>, terminateSent: bool)

  /** The slot's record: the process, its output so far, and when it was started. */
  datatype Record = Record(process: Process, log: seq<byte>, start: int)

  /** A record exists and its process has not exited. */
  predicate IsRunning(slot: Option<Record>)
  {
    slot.Some? && slot.value.process.returncode.None?
  }

  /** A handler's effect on the slot and its reply. */
  datatype Step = Step(slot: Option<Record>, resp: Response)

  /** `dev_server_start`, with `pid` the spawned process and `chunk` its first output. */
  function StartStep(slot: Option<Record>, pid: int, chunk: seq<byte>, now: int): Step
  {
    if IsRunning(slot) then Step(slot, Response(403, Message("403: dev server is currently running\n")))
    else Step(Some(Record(Process(pid, None, false), chunk, now)), Response(307, Location(StatusUrl)))
  }

  /** `dev_server_stop`, with `waited` the outcome of the 5 s wait (`None`: timed out). */
  function StopStep(slot: Option<Record>, waited: Option<int>): Step
  {
    if !IsRunning(slot) then Step(slot, Response(403, Message("403: dev server is not running\n")))
    else
      var rec := slot.value;
      var signalled := rec.process.(terminateSent := true);
      match waited
      case None => Step(Some(rec.(process := signalled)), Response(500, Message("500: dev server failed to stop\n")))
      case Some(code) =>
        Step(Some(rec.(process := signalled.(returncode := Some(code)))), Response(307, Location(StatusUrl)))
  }

  /** `dev_server_restart`: stop, swallowing its redirect or 403, then start; a 500 propagates. */
  function RestartStep(slot: Option<Record>, waited: Option<int>, pid: int, chunk: seq<byte>, now: int): Step
  {
    var stopped := StopStep(slot, waited);
    if stopped.resp.status == 500 then stopped
    else StartStep(stopped.slot, pid, chunk, now)
  }

  /** The non-empty lines of the decoded log, as the reply lists them. */
  function LogLines(text: string): seq<Json>
  {
    var lines := NonEmpty(Split(text, '\n'));
    seq(|lines|, i requires 0 <= i < |lines| => JStr(lines[i]))
  }

  /**
   * `dev_server_status`, with `chunk` the output read now, `waited` the
   * outcome of the 0.1 s wait (it returns at once, with the known code, for
   * a process whose exit is already known) and `now` the clock.
   */
  function StatusStep(slot: Option<Record>, chunk: seq<byte>, waited: Option<int>, now: int,
                      decode: seq<byte> -> Option<string>): Step
  {
    var idle := map["status" := JStr("not_running"), "start_url" := JStr(StartUrl)];
    if slot.None? then Step(slot, Response(200, Api(JDict(idle))))
    else
      var rec := slot.value.(log := slot.value.log + chunk);
      match decode(rec.log)
      case None => Step(Some(rec), Response(500, Crash))
      case Some(text) =>
        var known := idle["log" := JList(LogLines(text))]["start" := JInt(rec.start)]["duration" := JInt(now - rec.start)];
        var code := if rec.process.returncode.Some? then rec.process.returncode else waited;
        match code
        case None => Step(Some(rec), Response(200, Api(JDict(known["status" := JStr("running")] - {"start_url"}))))
        case Some(c) =>
          Step(Some(rec.(process := rec.process.(returncode := Some(c)))),
               Response(200, Api(JDict(known["status" := JStr(if c != 0 then "terminated" else "finished")]["returncode" := JInt(c)]))))
  }

  /** The event loop noticing that the child exited with `code`. */
  function ExitStep(slot: Option<Record>, code: int): Option<Record>
  {
    if IsRunning(slot) then Some(slot.value.(process := slot.value.process.(returncode := Some(code)))) else slot
  }

  /** `request.app[DEV_SERVER]` and the handlers that read and replace it. */
  class Supervisor {
    /** Absent, or the record of the last started dev server. */
    var slot: Option<Record>

    constructor()
      ensures slot == None
    {
      slot := None;
    }

    method Start(pid: int, chunk: seq<byte>, now: int) returns (resp: Response)
      modifies this
      ensures slot == StartStep(old(slot), pid, chunk, now).slot
      ensures resp == StartStep(old(slot), pid, chunk, now).resp
    {
      if slot.Some? && slot.value.process.returncode.None? {
        return Response(403, Message("403: dev server is currently running\n"));
      }
      slot := Some(Record(Process(pid, None, false), chunk, now));
      resp := Response(307, Location(StatusUrl));
    }

    method Stop(waited: Option<int>) returns (resp: Response)
      modifies this
      ensures slot == StopStep(old(slot), waited).slot
      ensures resp == StopStep(old(slot), waited).resp
    {
      if !(slot.Some? && slot.value.process.returncode.None?) {
        return Response(403, Message("403: dev server is not running\n"));
      }
      var rec := slot.value;
      rec := rec.(process := rec.process.(terminateSent := true));
      slot := Some(rec);
      if waited.None? {
        return Response(500, Message("500: dev server failed to stop\n"));
      }
      slot := Some(rec.(process := rec.process.(returncode := waited)));
      resp := Response(307, Location(StatusUrl));
    }

    method Restart(waited: Option<int>, pid: int, chunk: seq<byte>, now: int) returns (resp: Response)
      modifies this
      ensures slot == RestartStep(old(slot), waited, pid, chunk, now).slot
      ensures resp == RestartStep(old(slot), waited, pid, chunk, now).resp
    {
      var stopped := Stop(waited);
      if stopped.status == 500 {
        return stopped;
      }
      resp := Start(pid, chunk, now);
    }

    method Status(chunk: seq<byte>, waited: Option<int>, now: int, decode: seq<byte> -> Option<string>)
      returns (resp: Response)
      modifies this
      ensures slot == StatusStep(old(slot), chunk, waited, now, decode).slot
      ensures resp == StatusStep(old(slot), chunk, waited, now, decode).resp
    {
      var data := map["status" := JStr("not_running"), "start_url" := JStr(StartUrl)];
      if slot.Some? {
        var rec := slot.value;
        rec := rec.(log := rec.log + chunk);
        slot := Some(rec);
        var text := decode(rec.log);
        if text.None? {
          return Response(500, Crash);
        }
        data := data["log" := JList(LogLines(text.value))];
        data := data["start" := JInt(rec.start)];
        data := data["duration" := JInt(now - rec.start)];
        var code := if rec.process.returncode.Some? then rec.process.returncode else waited;
        if code.None? {
          data := data["status" := JStr("running")];
          data := data - {"start_url"};
        } else {
          slot := Some(rec.(process := rec.process.(returncode := code)));
          data := data["status" := JStr(if code.value != 0 then "terminated" else "finished")];
          data := data["returncode" := JInt(code.value)];
        }
      }
      resp := Response(200, Api(JDict(data)));
    }

    method ChildExited(code: int)
      modifies this
      ensures slot == ExitStep(old(slot), code)
    {
      if slot.Some? && slot.value.process.returncode.None? {
        slot := Some(slot.value.(process := slot.value.process.(returncode := Some(code))));
      }
    }
  }

  // ---------------------------------------------------------------------------
  // Properties of the handlers
  // ---------------------------------------------------------------------------

  /**
   * `start` refuses with 403, leaving the slot alone, exactly when a record
   * exists whose process has not exited; otherwise the slot holds a fresh
   * record whose log is the first chunk and whose start is now.
   */
  lemma StartRefusesIffRunning(slot: Option<Record>, pid: int, chunk: seq<byte>, now: int)
    ensures StartStep(slot, pid, chunk, now).resp.status == 403 <==> IsRunning(slot)
    ensures IsRunning(slot) ==> StartStep(slot, pid, chunk, now).slot == slot
    ensures !IsRunning(slot) ==>
      StartStep(slot, pid, chunk, now) == Step(Some(Record(Process(pid, None, false), chunk, now)), Response(307, Location(StatusUrl)))
  {
  }

  /**
   * `stop` refuses with 403 unless a process is running; a timed-out wait
   * answers 500 and keeps the record with its process unexited; a completed
   * wait records the exit code and redirects to the status page.
   */
  lemma StopOutcomes(slot: Option<Record>, waited: Option<int>)
    ensures StopStep(slot, waited).resp.status == 403 <==> !IsRunning(slot)
    ensures !IsRunning(slot) ==> StopStep(slot, waited).slot == slot
    ensures StopStep(slot, waited).resp.status == 500 <==> IsRunning(slot) && waited.None?
    ensures IsRunning(slot) && waited.None? ==>
      var after := StopStep(slot, waited).slot;
      after.Some? && after.value.process.pid == slot.value.process.pid && after.value.log == slot.value.log &&
      after.value.start == slot.value.start && after.value.process.returncode.None? && after.value.process.terminateSent
    ensures IsRunning(slot) && waited.Some? ==>
      StopStep(slot, waited).resp == Response(307, Location(StatusUrl)) &&
      StopStep(slot, waited).slot ==
        Some(slot.value.(process := slot.value.process.(returncode := waited, terminateSent := true)))
  {
  }

  /**
   * `restart` never answers 403: it fails with 500 exactly when a running
   * process outlives the stop's wait (and then starts nothing); otherwise it
   * ends with the new process running.
   */
  lemma RestartOutcomes(slot: Option<Record>, waited: Option<int>, pid: int, chunk: seq<byte>, now: int)
    ensures RestartStep(slot, waited, pid, chunk, now).resp.status != 403
    ensures RestartStep(slot, waited, pid, chunk, now).resp.status == 500 <==> IsRunning(slot) && waited.None?
    ensures RestartStep(slot, waited, pid, chunk, now).resp.status == 500 ==>
      RestartStep(slot, waited, pid, chunk, now) == StopStep(slot, waited)
    ensures RestartStep(slot, waited, pid, chunk, now).resp.status != 500 ==>
      RestartStep(slot, waited, pid, chunk, now) == Step(Some(Record(Process(pid, None, false), chunk, now)), Response(307, Location(StatusUrl)))
  {
  }

  /** With no record, `status` replies exactly `{status: not_running, start_url}` and changes nothing. */
  lemma StatusWithoutRecord(chunk: seq<byte>, waited: Option<int>, now: int, decode: seq<byte> -> Option<string>)
    ensures StatusStep(None, chunk, waited, now, decode) ==
      Step(None, Response(200, Api(JDict(map["status" := JStr("not_running"), "start_url" := JStr(StartUrl)]))))
  {
  }

  /**
   * With a record, `status` appends the chunk to the log (even when decoding
   * then fails), keeps the process and its start, and replies with the
   * non-empty lines of the whole decoded log, the start and `now - start`;
   * `running` without `start_url` while no exit is known, otherwise
   * `terminated` exactly for a non-zero code, with `returncode` and
   * `start_url`.
   */
  lemma StatusWithRecord(rec: Record, chunk: seq<byte>, waited: Option<int>, now: int, decode: seq<byte> -> Option<string>)
    ensures var after := StatusStep(Some(rec), chunk, waited, now, decode).slot;
      after.Some? && after.value.log == rec.log + chunk && after.value.start == rec.start &&
      after.value.process.pid == rec.process.pid
    ensures decode(rec.log + chunk).None? ==> StatusStep(Some(rec), chunk, waited, now, decode).resp == Response(500, Crash)
    ensures decode(rec.log + chunk).Some? ==>
      var resp := StatusStep(Some(rec), chunk, waited, now, decode).resp;
      var code := if rec.process.returncode.Some? then rec.process.returncode else waited;
      resp.status == 200 && resp.body.Api? && resp.body.data.JDict? &&
      var fields := resp.body.data.fields;
      && fields["log"] == JList(LogLines(decode(rec.log + chunk).value))
      && fields["start"] == JInt(rec.start)
      && fields["duration"] == JInt(now - rec.start)
      && (fields["status"] == JStr("running") <==> code.None?)
      && ("start_url" in fields <==> code.Some?)
      && ("returncode" in fields <==> code.Some?)
      && (code.Some? ==> fields["returncode"] == JInt(code.value) &&
                         fields["status"] == JStr(if code.value != 0 then "terminated" else "finished"))
      && StatusStep(Some(rec), chunk, waited, now, decode).slot.value.process.returncode == code
  {
  }

  /** The reply lists exactly the non-empty lines of the text, none holding a line break. */
  lemma LogLinesAreLines(text: string)
    ensures forall j :: 0 <= j < |LogLines(text)| ==>
      (LogLines(text)[j].JStr? && LogLines(text)[j].s != "" && '\n' !in LogLines(text)[j].s &&
       LogLines(text)[j].s in Split(text, '\n'))
    ensures forall line :: line in Split(text, '\n') && line != "" ==> JStr(line) in LogLines(text)
  {
    var parts := Split(text, '\n');
    var lines := NonEmpty(parts);
    forall j | 0 <= j < |LogLines(text)|
      ensures LogLines(text)[j].JStr? && LogLines(text)[j].s != "" && '\n' !in LogLines(text)[j].s &&
        LogLines(text)[j].s in parts
    {
      assert LogLines(text)[j] == JStr(lines[j]);
      assert lines[j] in lines;
    }
    forall line | line in parts && line != ""
      ensures JStr(line) in LogLines(text)
    {
      var j :| 0 <= j < |lines| && lines[j] == line;
      assert LogLines(text)[j] == JStr(line);
    }
  }

  /**
   * A log written as newline-separated lines is reported as exactly its
   * non-empty lines, in the order written and with repeats kept.
   */
  lemma LogLinesRoundTrip(lines: seq<string>)
    requires forall i :: 0 <= i < |lines| ==> '\n' !in lines[i]
    ensures |LogLines(Join(lines, '\n'))| == |NonEmpty(lines)|
    ensures forall j :: 0 <= j < |NonEmpty(lines)| ==> LogLines(Join(lines, '\n'))[j] == JStr(NonEmpty(lines)[j])
  {
    if lines == [] {
      assert Split(Join(lines, '\n'), '\n') == [""];
    } else {
      SplitJoin(lines, '\n');
    }
  }

  // ---------------------------------------------------------------------------
  // Request sequences
  // ---------------------------------------------------------------------------

  /** One thing that can happen to the slot: a handler runs, or the child's exit is noticed. */
  datatype Event =
    | StartReq(pid: int, chunk: seq<byte>, now: int)
    | StopReq(waited: Option<int>)
    | RestartReq(waited: Option<int>, pid: int, chunk: seq<byte>, now: int)
    | StatusReq(chunk: seq<byte>, waited: Option<int>, now: int)
    | ChildExit(code: int)

  /** The slot after one event. */
  function After(slot: Option<Record>, e: Event, decode: seq<byte> -> Option<string>): Option<Record>
  {
    match e
    case StartReq(pid, chunk, now) => StartStep(slot, pid, chunk, now).slot
    case StopReq(waited) => StopStep(slot, waited).slot
    case RestartReq(waited, pid, chunk, now) => RestartStep(slot, waited, pid, chunk, now).slot
    case StatusReq(chunk, waited, now) => StatusStep(slot, chunk, waited, now, decode).slot
    case ChildExit(code) => ExitStep(slot, code)
  }

  /** The slot after a sequence of events, handled one at a time. */
  function Run(slot: Option<Record>, events: seq<Event>, decode: seq<byte> -> Option<string>): Option<Record>
    decreases |events|
  {
    if events == [] then slot else Run(After(slot, events[0], decode), events[1..], decode)
  }

  /** The event is one through which a process's exit can become known. */
  predicate ReportsExit(e: Event)
  {
    e.ChildExit? || (e.StopReq? && e.waited.Some?) || (e.RestartReq? && e.waited.Some?) ||
    (e.StatusReq? && e.waited.Some?)
  }

  /** The same process stays recorded, still running, with its start kept and its log extended. */
  predicate Keeps(before: Option<Record>, after: Option<Record>)
  {
    IsRunning(before) && IsRunning(after) &&
    after.value.process.pid == before.value.process.pid && after.value.start == before.value.start &&
    before.value.log <= after.value.log
  }

  /** A single event replaces a running process only when it learns of its exit. */
  lemma NoLiveProcessDropped(slot: Option<Record>, e: Event, decode: seq<byte> -> Option<string>)
    requires IsRunning(slot) && !ReportsExit(e)
    ensures Keeps(slot, After(slot, e, decode))
  {
  }

  /**
   * Whatever requests arrive, as long as no exit is reported, the dev server
   * that was running stays the recorded one, still running, and its log
   * only grows: with each request handled atomically, no request loses a
   * live process or starts a second one.
   */
  lemma {:induction false} LiveProcessKept(slot: Option<Record>, events: seq<Event>, decode: seq<byte> -> Option<string>)
    requires IsRunning(slot)
    requires forall i :: 0 <= i < |events| ==> !ReportsExit(events[i])
    ensures Keeps(slot, Run(slot, events, decode))
    decreases |events|
  {
    if events != [] {
      var next := After(slot, events[0], decode);
      NoLiveProcessDropped(slot, events[0], decode);
      LiveProcessKept(next, events[1..], decode);
    }
  }

  /** The log of the recorded process never shrinks while that process stays recorded. */
  lemma {:induction false} LogOnlyGrows(slot: Option<Record>, events: seq<Event>, decode: seq<byte> -> Option<string>)
    requires slot.Some?
    requires forall i :: 0 <= i < |events| ==> !events[i].StartReq? && !events[i].RestartReq?
    ensures var after := Run(slot, events, decode);
      after.Some? && after.value.process.pid == slot.value.process.pid && slot.value.log <= after.value.log
    decreases |events|
  {
    if events != [] {
      LogOnlyGrows(After(slot, events[0], decode), events[1..], decode);
    }
  }

  /**
   * From an empty slot, start, a stop whose wait completes with `code`, and
   * a status request leave the process exited and report it as such, with
   * the start link back.
   */
  lemma StartStopStatus(pid: int, chunk: seq<byte>, t0: int, code: int, more: seq<byte>, t1: int,
                        decode: seq<byte> -> Option<string>)
    requires decode(chunk + more).Some?
    ensures var s1 := StartStep(None, pid, chunk, t0);
      var s2 := StopStep(s1.slot, Some(code));
      var s3 := StatusStep(s2.slot, more, None, t1, decode);
      s1.resp.status == 307 && s2.resp.status == 307 && s3.resp.status == 200 &&
      s3.resp.body.data.fields["status"] == JStr(if code != 0 then "terminated" else "finished") &&
      s3.resp.body.data.fields["returncode"] == JInt(code) &&
      s3.resp.body.data.fields["start_url"] == JStr(StartUrl) &&
      s3.resp.body.data.fields["duration"] == JInt(t1 - t0)
  {
  }
}
