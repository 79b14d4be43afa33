/**
  The JSON texts the receiver sends (`receiver/src/lib.rs`) and what the host makes of them
  (`host/devices/device.py`). Payloads are Unicode texts; their UTF-8 form is not modelled.
*/
module Results {
  import opened Wrappers
  import opened Json

  datatype ExecResult = ExecResult(ok: bool, logs: seq<string>, error: Option<string>)

  datatype ExecStatus = Idle | Running | Completed | Stopped

  // ---------- receiver: writing ----------

  function Strings(texts: seq<string>): (vs: seq<Value>)
    ensures |vs| == |texts|
    ensures forall i :: 0 <= i < |vs| ==> vs[i] == Str(texts[i])
  {
    seq(|texts|, i requires 0 <= i < |texts| => Str(texts[i]))
  }

  function ErrorValue(text: string): Value {
    Obj([Member("ok", Bool(false)), Member("error", Str(text))])
  }

  /** The message a failed result is reported with. */
  function ErrorMessage(r: ExecResult): string {
    if r.error.Some? then r.error.value else "unknown"
  }

  /** The JSON value an execution result stands for. */
  function ResultValue(r: ExecResult): Value {
    if r.ok then Obj([Member("ok", Bool(true)), Member("logs", Arr(Strings(r.logs)))])
    else ErrorValue(ErrorMessage(r))
  }

  lemma {:induction false} WriteItemsAppend(items: seq<Value>, v: Value)
    ensures WriteItems(items + [v]) == if items == [] then Write(v) else WriteItems(items) + ("," + Write(v))
  {
    hide Write;
    if |items| > 1 {
      WriteItemsAppend(items[1..], v);
      assert (items + [v])[1..] == items[1..] + [v];
      assert (items + [v])[0] == items[0];
    } else if |items| == 1 {
      assert (items + [v])[1..] == [v];
    } else {
      assert items + [v] == [v];
    }
  }

  /** A quoted key and its value behind `before`, as the format strings spell them. */
  lemma SpellMember(before: string, k: string, w: string)
    requires Plain(k)
    ensures before + "\"" + k + "\":" + w == before + (Quote(k) + (":" + w))
  {
    hide Escape;
    EscapePlain(k);
    calc {
      before + "\"" + k + "\":" + w;
      { assert "\":" == "\"" + ":"; Assoc(before + "\"" + k, "\"", ":"); }
      before + "\"" + k + "\"" + ":" + w;
      { Assoc(before + "\"", k, "\""); Assoc(before, "\"", k + "\""); }
      before + Quote(k) + ":" + w;
      { Assoc(before + Quote(k), ":", w); Assoc(before, Quote(k), ":" + w); }
      before + (Quote(k) + (":" + w));
    }
  }

  lemma WriteTwo(k1: string, v1: Value, k2: string, v2: Value)
    requires Plain(k1) && Plain(k2)
    ensures Write(Obj([Member(k1, v1), Member(k2, v2)]))
         == "{" + "\"" + k1 + "\":" + Write(v1) + "," + "\"" + k2 + "\":" + Write(v2) + "}"
  {
    hide Quote;
    var h1, h2 := Quote(k1) + (":" + Write(v1)), Quote(k2) + (":" + Write(v2));
    var ms := [Member(k1, v1), Member(k2, v2)];
    assert WriteMembers(ms) == h1 + ("," + h2) by { assert ms[1..] == [Member(k2, v2)]; }
    SpellMember("{", k1, Write(v1));
    SpellMember("{" + h1 + ",", k2, Write(v2));
    Assoc("{" + h1, ",", h2);
    Assoc("{", h1, "," + h2);
    Assoc("{", h1 + ("," + h2), "}");
  }

  lemma WriteOne(k: string, v: Value)
    requires Plain(k)
    ensures Write(Obj([Member(k, v)])) == "{" + "\"" + k + "\":" + Write(v) + "}"
  {
    hide Quote;
    SpellMember("{", k, Write(v));
    Assoc("{", Quote(k) + (":" + Write(v)), "}");
  }

  /** The fixed parts of the receiver's format strings. */
  lemma FormatStrings()
    ensures "{\"ok\":" == "{" + "\"" + "ok" + "\":"
    ensures ",\"error\":" == "," + "\"" + "error" + "\":"
    ensures ",\"logs\":" == "," + "\"" + "logs" + "\":"
    ensures Plain("ok") && Plain("error") && Plain("logs")
  {
  }

  lemma FormatError(w: string)
    ensures "{\"ok\":false,\"error\":" + w == "{" + "\"" + "ok" + "\":" + "false" + "," + "\"" + "error" + "\":" + w
  {
    assert "{\"ok\":false,\"error\":" == "{" + "\"" + "ok" + "\":" + "false" + "," + "\"" + "error" + "\":";
  }

  lemma FormatLogs(w: string)
    ensures "{\"ok\":true,\"logs\":" + w == "{" + "\"" + "ok" + "\":" + "true" + "," + "\"" + "logs" + "\":" + w
  {
    assert "{\"ok\":true,\"logs\":" == "{" + "\"" + "ok" + "\":" + "true" + "," + "\"" + "logs" + "\":";
  }

  /** The text of an error value, with the message already escaped. */
  lemma SpellError(text: string)
    ensures Write(ErrorValue(text)) == "{\"ok\":false,\"error\":\"" + Escape(text) + "\"}"
  {
    hide Write, Escape;
    var w := Write(Str(text));
    assert w == "\"" + (Escape(text) + "\"") by { WriteShapes([], text); }
    FormatStrings();
    WriteTwo("ok", Bool(false), "error", Str(text));
    WriteShapes([], text);
    FormatError(w);
    var head := "{\"ok\":false,\"error\":";
    assert head + "\"" == "{\"ok\":false,\"error\":\"";
    assert "\"}" == "\"" + "}";
    Assoc(head, "\"", Escape(text) + "\"");
    Assoc(head + "\"", Escape(text), "\"");
    Assoc(head + "\"" + Escape(text), "\"", "}");
  }

  lemma SpellLogs(items: seq<Value>)
    ensures Write(Obj([Member("ok", Bool(true)), Member("logs", Arr(items))]))
         == "{\"ok\":true,\"logs\":[" + WriteItems(items) + "]}"
  {
    hide Write, WriteItems;
    var w := Write(Arr(items));
    FormatStrings();
    WriteTwo("ok", Bool(true), "logs", Arr(items));
    WriteShapes(items, []);
    FormatLogs(w);
    var head := "{\"ok\":true,\"logs\":";
    assert head + "[" == "{\"ok\":true,\"logs\":[";
    assert "]}" == "]" + "}";
    Assoc(head, "[", WriteItems(items) + "]");
    Assoc(head + "[", WriteItems(items), "]");
    Assoc(head + "[" + WriteItems(items), "]", "}");
  }

  lemma WriteShapes(items: seq<Value>, s: string)
    ensures Write(Arr(items)) == "[" + (WriteItems(items) + "]")
    ensures Write(Str(s)) == "\"" + (Escape(s) + "\"")
    ensures Write(Bool(true)) == "true" && Write(Bool(false)) == "false"
    ensures WriteItems([]) == []
  {
  }

  /** `exec_result_to_json`, with its loop over the logs. */
  method ExecResultToJson(r: ExecResult) returns (json: string)
    ensures json == Write(ResultValue(r))
  {
    hide Write, WriteItems, WriteMembers, Escape;
    if r.ok {
      var s := "{\"ok\":true,\"logs\":[";
      ghost var items := Strings(r.logs);
      ghost var head := s;
      WriteShapes([], []);
      for i := 0 to |r.logs|
        invariant s == head + WriteItems(items[..i])
      {
        ghost var before := s;
        if i > 0 { s := s + ","; }
        s := s + "\"";
        var body := JsonEscape(r.logs[i]);
        s := s + body;
        s := s + "\"";
        AppendLog(before, head, items[..i], r.logs[i], s);
        assert items[..i] + [items[i]] == items[..i + 1];
      }
      assert items[..|items|] == items;
      SpellLogs(items);
      json := s + "]}";
    } else {
      var text := ErrorMessage(r);
      var body := JsonEscape(text);
      SpellError(text);
      json := "{\"ok\":false,\"error\":\"" + body + "\"}";
    }
  }

  /** One turn of the log loop writes one more item. */
  lemma AppendLog(before: string, head: string, items: seq<Value>, log: string, after: string)
    requires before == head + WriteItems(items)
    requires after == (if items != [] then before + "," else before) + "\"" + Escape(log) + "\""
    ensures after == head + WriteItems(items + [Str(log)])
  {
    hide Write, WriteItems, Escape;
    var w := Write(Str(log));
    WriteItemsAppend(items, Str(log));
    WriteShapes([], log);
    var sep := if items != [] then before + "," else before;
    Assoc(sep, "\"", Escape(log));
    Assoc(sep, "\"" + Escape(log), "\"");
    Assoc("\"", Escape(log), "\"");
    Assoc(before, ",", w);
    Assoc(head, WriteItems(items), "," + w);
    assert head + [] == head;
  }

  /** A rejection whose text needs no escaping is written as its error value. */
  lemma WritePlainError(text: string)
    requires Plain(text)
    ensures Write(ErrorValue(text)) == "{\"ok\":false,\"error\":\"" + text + "\"}"
  {
    SpellError(text);
    EscapePlain(text);
  }

  function JoinNames(names: seq<string>): string {
    if names == [] then []
    else if |names| == 1 then names[0]
    else names[0] + ", " + JoinNames(names[1..])
  }

  /** The loop of `rejected_imports_json` over the names. */
  method JoinRejected(rejected: seq<string>) returns (names: string)
    ensures names == JoinNames(rejected)
  {
    names := [];
    for i := 0 to |rejected|
      invariant names == JoinNames(rejected[..i])
    {
      JoinOneMore(rejected[..i], rejected[i]);
      assert rejected[..i] + [rejected[i]] == rejected[..i + 1];
      if i > 0 { names := names + ", "; }
      names := names + rejected[i];
    }
    assert rejected[..|rejected|] == rejected;
  }

  lemma {:induction false} JoinOneMore(names: seq<string>, name: string)
    ensures JoinNames(names + [name]) == (if names == [] then [] else JoinNames(names) + ", ") + name
  {
    if |names| > 1 {
      JoinOneMore(names[1..], name);
      assert (names + [name])[1..] == names[1..] + [name];
      Assoc(names[0], ", ", JoinNames(names[1..]) + ", " + name);
      Assoc(names[0] + ", ", JoinNames(names[1..]), ", ");
      Assoc(names[0] + ", ", JoinNames(names[1..]) + ", ", name);
    } else if |names| == 1 {
      assert (names + [name])[1..] == [name];
    } else {
      assert names + [name] == [name];
    }
  }

  /** `rejected_imports_json`. */
  function RejectedImportsJson(rejected: seq<string>): (json: string)
    ensures json == Write(ErrorValue("rejected imports: " + JoinNames(rejected)))
  {
    var names := JoinNames(rejected);
    RejectedImportsText(names);
    "{\"ok\":false,\"error\":\"rejected imports: " + Escape(names) + "\"}"
  }

  lemma {:induction false} EscapeConcat(a: string, b: string)
    ensures Escape(a + b) == Escape(a) + Escape(b)
  {
    hide EscapeChar;
    if a == [] {
      assert a + b == b;
    } else {
      EscapeConcat(a[1..], b);
      assert (a + b)[1..] == a[1..] + b;
      Assoc(EscapeChar(a[0]), Escape(a[1..]), Escape(b));
    }
  }

  lemma RejectedImportsText(names: string)
    ensures Write(ErrorValue("rejected imports: " + names))
         == "{\"ok\":false,\"error\":\"rejected imports: " + Escape(names) + "\"}"
  {
    hide Write, Escape;
    var intro := "rejected imports: ";
    SpellError(intro + names);
    EscapePlain(intro);
    EscapeConcat(intro, names);
    var head := "{\"ok\":false,\"error\":\"";
    Assoc(head, intro, Escape(names));
    assert head + intro == "{\"ok\":false,\"error\":\"rejected imports: ";
  }

  // ---------- receiver: status texts ----------

  function StatusName(s: ExecStatus): string {
    match s
    case Idle => "idle"
    case Running => "running"
    case Completed => "completed"
    case Stopped => "stopped"
  }

  function StatusJson(s: ExecStatus, running: bool): string {
    "{\"status\":\"" + StatusName(s) + "\",\"running\":" + (if running then "true" else "false") + "}"
  }

  lemma StatusJsonIsWritten(s: ExecStatus, running: bool)
    ensures StatusJson(s, running) == Write(Obj([Member("status", Str(StatusName(s))), Member("running", Bool(running))]))
  {
    hide Write, Escape;
    var name, flag := StatusName(s), Bool(running);
    var w := Write(Str(name));
    EscapePlain(name);
    WriteShapes([], name);
    WriteTwo("status", Str(name), "running", flag);
    SpellStatus(name);
  }

  /** The fixed parts of the status text around the status name. */
  lemma SpellStatus(name: string)
    ensures "{\"status\":\"" + name + "\",\"running\":"
         == "{" + "\"" + "status" + "\":" + ("\"" + (name + "\"")) + "," + "\"" + "running" + "\":"
  {
  }

  const STOPPED_JSON: string := "{\"stopped\":true}"

  lemma StoppedJsonIsWritten()
    ensures STOPPED_JSON == Write(Obj([Member("stopped", Bool(true))]))
  {
    hide Write;
    WriteOne("stopped", Bool(true));
    WriteShapes([], []);
  }

  // ---------- host: reading ----------

  /** The dynamically typed fields of the host's `ExecResult`. */
  datatype HostResult = HostResult(ok: Value, logs: Value, error: Value)

  datatype DeviceStatus = DeviceStatus(status: Value, running: Value)

  /** `_parse_result`; `None` stands for the exception a malformed payload raises. */
  function ParseResult(payload: string): Option<HostResult> {
    match Loads(payload)
    case Some(Obj(ms)) => Some(HostResult(Get(ms, "ok", Bool(false)), Get(ms, "logs", Arr([])), Get(ms, "error", Null)))
    case _ => None
  }

  function ParseStatus(payload: string): Option<DeviceStatus> {
    match Loads(payload)
    case Some(Obj(ms)) => Some(DeviceStatus(Get(ms, "status", Str("unknown")), Get(ms, "running", Bool(false))))
    case _ => None
  }

  /** What the host should see of a result: its logs if it is ok, its error if it is not. */
  function HostView(r: ExecResult): HostResult {
    if r.ok then HostResult(Bool(true), Arr(Strings(r.logs)), Null)
    else HostResult(Bool(false), Arr([]), Str(ErrorMessage(r)))
  }

  lemma GetOfTwo(k1: string, v1: Value, k2: string, v2: Value, key: string, default: Value)
    ensures Get([Member(k1, v1), Member(k2, v2)], key, default)
         == if k2 == key then v2 else if k1 == key then v1 else default
  {
    var ms := [Member(k1, v1), Member(k2, v2)];
    var front := ms[..1];
    assert front[..0] == [];
    assert Get(front[..0], key, default) == default;
    assert Get(front, key, default) == if k1 == key then v1 else default;
  }

  /** The host recovers exactly the result that was executed, whatever its logs or error contain. */
  lemma ResultRoundTrip(r: ExecResult)
    ensures ParseResult(Write(ResultValue(r))) == Some(HostView(r))
    ensures r.ok ==> HostView(r) == HostResult(Bool(true), Arr(Strings(r.logs)), Null)
    ensures !r.ok && r.error.Some? ==> HostView(r) == HostResult(Bool(false), Arr([]), Str(r.error.value))
    ensures !r.ok && r.error.None? ==> HostView(r) == HostResult(Bool(false), Arr([]), Str("unknown"))
  {
    hide Loads, Write, Get;
    LoadsWritten(ResultValue(r));
    if r.ok {
      var logs := Arr(Strings(r.logs));
      GetOfTwo("ok", Bool(true), "logs", logs, "ok", Bool(false));
      GetOfTwo("ok", Bool(true), "logs", logs, "logs", Arr([]));
      GetOfTwo("ok", Bool(true), "logs", logs, "error", Null);
    } else {
      var e := Str(ErrorMessage(r));
      GetOfTwo("ok", Bool(false), "error", e, "ok", Bool(false));
      GetOfTwo("ok", Bool(false), "error", e, "logs", Arr([]));
      GetOfTwo("ok", Bool(false), "error", e, "error", Null);
    }
  }

  /** What is missing from an object counts as a failed result without logs or error, and as an unknown status. */
  lemma MissingFields()
    ensures ParseResult(Write(Obj([]))) == Some(HostResult(Bool(false), Arr([]), Null))
    ensures ParseStatus(Write(Obj([]))) == Some(DeviceStatus(Str("unknown"), Bool(false)))
  {
    hide Write, Loads;
    LoadsWritten(Obj([]));
  }

  /** The host tells two results apart exactly if their verdicts differ, or their logs if ok, or their messages if failed. */
  lemma HostViewIff(a: ExecResult, b: ExecResult)
    ensures HostView(a) == HostView(b)
       <==> a.ok == b.ok && (if a.ok then a.logs == b.logs else ErrorMessage(a) == ErrorMessage(b))
  {
    if a.ok && b.ok && HostView(a) == HostView(b) {
      assert forall i :: 0 <= i < |a.logs| ==> Strings(a.logs)[i] == Strings(b.logs)[i];
    }
  }

  /** The host reads the status by its own name, and the flag. */
  lemma StatusRoundTrip(s: ExecStatus, running: bool)
    ensures ParseStatus(StatusJson(s, running)) == Some(DeviceStatus(Str(StatusName(s)), Bool(running)))
    ensures StatusName(Idle) == "idle" && StatusName(Running) == "running"
    ensures StatusName(Completed) == "completed" && StatusName(Stopped) == "stopped"
  {
    hide Loads, Write, Get, StatusJson;
    StatusJsonIsWritten(s, running);
    var name := Str(StatusName(s));
    LoadsWritten(Obj([Member("status", name), Member("running", Bool(running))]));
    GetOfTwo("status", name, "running", Bool(running), "status", Str("unknown"));
    GetOfTwo("status", name, "running", Bool(running), "running", Bool(false));
  }
}
