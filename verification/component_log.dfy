/** The KEEP branch of the component log: a bounded buffer holding the last
    `MaxLogSize` messages. The log and the debug level are process-wide
    statics in the source; here they are one explicit state record. */
module ComponentLog {
  import opened Common

  /** The debug levels a log can be configured with. */
  datatype DebugLevel = Keep | Append | Alert | Raise

  /** Upper bound on the number of kept messages. */
  const MaxLogSize: nat := 50

  /** `log` is None when the Java field is null. */
  datatype LogState = LogState(level: set<DebugLevel>, log: Option<seq<string>>)

  /** The configuration before any `setDebugLevel` call: no level, no log. */
  const Initial: LogState := LogState({}, None)

  /** `setDebugLevel`: a fresh empty log only when KEEP is asked for and no log
      exists; every other call, KEEP with an existing log included, drops the log. */
  function SetDebugLevel(s: LogState, level: set<DebugLevel>): (r: LogState)
    ensures r.level == level
    ensures r.log == Some([]) <==> Keep in level && s.log == None
    ensures r.log != Some([]) ==> r.log == None
  {
    if Keep in level && s.log == None then LogState(level, Some([]))
    else LogState(level, None)
  }

  /** `trace(String)` as far as the kept log goes. Outside KEEP the log is not
      touched; in KEEP with a null log the call dereferences null. */
  function Trace(s: LogState, msg: string): (r: Result)
    ensures Keep !in s.level ==> r == Ok(s)
    ensures Keep in s.level && s.log == None ==> r == Threw(NullDereference)
    ensures Keep in s.level && s.log.Some? ==>
      r.Ok? && r.state.level == s.level && r.state.log.Some? &&
      var prev := s.log.value;
      var now := r.state.log.value;
      && |now| > 0 && now[|now| - 1] == msg
      && (|prev| == MaxLogSize ==> now == prev[1..] + [msg])
      && (|prev| != MaxLogSize ==> now == prev + [msg])
  {
    if Keep !in s.level then Ok(s)
    else if s.log == None then Threw(NullDereference)
    else
      var kept := if |s.log.value| == MaxLogSize then s.log.value[1..] else s.log.value;
      Ok(s.(log := Some(kept + [msg])))
  }

  datatype Result = Ok(state: LogState) | Threw(fault: Fault)

  /** A log is in the shape that `trace` maintains: bounded by `MaxLogSize`. */
  predicate Bounded(s: LogState)
  {
    s.log.Some? ==> |s.log.value| <= MaxLogSize
  }

  /** Tracing never lets the kept log grow past `MaxLogSize`. */
  lemma TraceKeepsBound(s: LogState, msg: string)
    requires Bounded(s)
    requires Trace(s, msg).Ok?
    ensures Bounded(Trace(s, msg).state)
  {
  }

  /** Tracing a sequence of messages, stopping at the first fault. */
  function TraceAll(s: LogState, msgs: seq<string>): Result
    decreases |msgs|
  {
    if msgs == [] then Ok(s)
    else match Trace(s, msgs[0])
      case Ok(s1) => TraceAll(s1, msgs[1..])
      case Threw(f) => Threw(f)
  }

  /** The last `n` elements of a sequence, or all of it when it is shorter. */
  function LastN<T>(s: seq<T>, n: nat): seq<T>
  {
    if |s| <= n then s else s[|s| - n..]
  }

  /** In KEEP mode, starting from a bounded log, the log after any sequence of
      traces is exactly the last `MaxLogSize` messages of old log + new messages. */
  lemma {:induction false} TraceAllKeepsLast(s: LogState, msgs: seq<string>)
    requires Keep in s.level && s.log.Some? && Bounded(s)
    ensures TraceAll(s, msgs).Ok?
    ensures TraceAll(s, msgs).state.log == Some(LastN(s.log.value + msgs, MaxLogSize))
    decreases |msgs|
  {
    if msgs != [] {
      var s1 := Trace(s, msgs[0]).state;
      var prev := s.log.value;
      assert s1.log.value == LastN(prev + [msgs[0]], MaxLogSize);
      assert TraceAll(s, msgs) == TraceAll(s1, msgs[1..]);
      TraceAllKeepsLast(s1, msgs[1..]);
      LastNAppend(prev + [msgs[0]], msgs[1..], MaxLogSize);
      assert prev + [msgs[0]] + msgs[1..] == prev + msgs;
    } else {
      assert s.log.value + msgs == s.log.value;
    }
  }

  lemma LastNAppend<T>(a: seq<T>, b: seq<T>, n: nat)
    ensures LastN(LastN(a, n) + b, n) == LastN(a + b, n)
  {
  }

  /** Configuring KEEP twice in a row drops the log, so the next trace
      dereferences null. */
  lemma KeepTwiceThenTraceThrows(msg: string)
    ensures Trace(SetDebugLevel(SetDebugLevel(Initial, {Keep}), {Keep}), msg)
      == Threw(NullDereference)
  {
  }
}
