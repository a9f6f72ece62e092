/**
 What the log limiter decides, told by the lines a task has logged: how many equal ones in a
 row, and how many since its window opened.
 */
module LogLaws {
  import opened Wrappers
  import opened LogControl

  // ---------------------------------------------------------------- which lines are equal

  ghost predicate SameLine(a: Log, b: Log) {
    a.sourceId == b.sourceId && a.stage == b.stage && a.level == b.level && a.message == b.message
  }

  ghost predicate NoBars(log: Log) {
    '|' !in log.sourceId && '|' !in log.stage && '|' !in log.level
  }

  /** Two texts before the first bar, and what follows it. */
  lemma FirstBar(a: string, x: string, b: string, y: string)
    requires '|' !in a && '|' !in b && a + "|" + x == b + "|" + y
    ensures a == b && x == y
  {
    var s := a + "|" + x;
    assert s[|a|] == '|' && s[|b|] == '|';
    assert forall i :: 0 <= i < |a| ==> s[i] == a[i];
    assert forall i :: 0 <= i < |b| ==> s[i] == b[i];
    assert s[..|a|] == a && s[..|b|] == b;
    assert s[|a| + 1..] == x && s[|b| + 1..] == y;
  }

  lemma KeyShape(log: Log)
    ensures KeyOf(log) == log.sourceId + "|" + (log.stage + "|" + (log.level + "|" + log.message))
  {
  }

  /** Lines count as equal exactly if they agree in source, stage, level and message, as long as the first three hold no bar. */
  lemma KeyExactly(a: Log, b: Log)
    requires NoBars(a) && NoBars(b)
    ensures KeyOf(a) == KeyOf(b) <==> SameLine(a, b)
  {
    KeyShape(a);
    KeyShape(b);
    hide KeyOf;
    if KeyOf(a) == KeyOf(b) {
      FirstBar(a.sourceId, a.stage + "|" + (a.level + "|" + a.message), b.sourceId, b.stage + "|" + (b.level + "|" + b.message));
      FirstBar(a.stage, a.level + "|" + a.message, b.stage, b.level + "|" + b.message);
      FirstBar(a.level, a.message, b.level, b.message);
    }
  }

  /** With bars, lines that differ may count as equal. */
  lemma KeysCollide(task: string, s: string, stage: string, level: string, message: string)
    ensures var a := Log(s + "|" + stage, task, level, message, "");
      var b := Log(s, task, stage, level, message + "|");
      KeyOf(a) == KeyOf(b) && !SameLine(a, b)
  {
    var a, b := Log(s + "|" + stage, task, level, message, ""), Log(s, task, stage, level, message + "|");
    KeyShape(a);
    KeyShape(b);
    hide KeyOf;
    assert s + "|" + stage + "|" + (level + "|" + (message + "|" + "")) ==
      s + "|" + (stage + "|" + (level + "|" + (message + "|")));
  }

  ghost function Bars(s: string): nat {
    if s == "" then 0 else Bars(s[1..]) + if s[0] == '|' then 1 else 0
  }

  lemma {:induction false} BarsOfSum(a: string, b: string)
    ensures Bars(a + b) == Bars(a) + Bars(b)
    decreases |a|
  {
    if a == "" {
      assert a + b == b;
    } else {
      assert (a + b)[1..] == a[1..] + b;
      BarsOfSum(a[1..], b);
    }
  }

  lemma {:induction false} NoBarsNone(s: string)
    ensures Bars(s) == 0 <==> '|' !in s
    decreases |s|
  {
    if s != "" {
      NoBarsNone(s[1..]);
      assert s == [s[0]] + s[1..];
    }
  }

  lemma BarsOfTwo(a: string, b: string)
    ensures Bars(a + "|" + b) == Bars(a) + 1 + Bars(b)
  {
    BarsOfSum(a + "|", b);
    BarsOfSum(a, "|");
    assert Bars("|") == 1;
  }

  lemma BarsOfKey(log: Log)
    ensures Bars(KeyOf(log)) == Bars(log.sourceId) + Bars(log.stage) + Bars(log.level) + Bars(log.message) + 3
  {
    KeyShape(log);
    hide *;
    BarsOfTwo(log.sourceId, log.stage + "|" + (log.level + "|" + log.message));
    BarsOfTwo(log.stage, log.level + "|" + log.message);
    BarsOfTwo(log.level, log.message);
  }

  ghost predicate BarFree(log: Log) {
    NoBars(log) && '|' !in log.message
  }

  lemma SameKeyBarFree(a: Log, b: Log)
    requires BarFree(a) && KeyOf(b) == KeyOf(a)
    ensures SameLine(a, b)
  {
    hide KeyOf, Bars;
    BarsOfKey(a);
    BarsOfKey(b);
    forall s ensures Bars(s) == 0 <==> '|' !in s {
      NoBarsNone(s);
    }
    KeyExactly(a, b);
  }

  lemma AtBar(s: string) returns (x: string, y: string)
    requires '|' in s
    ensures s == x + "|" + y && |x| < |s|
  {
    var i :| 0 <= i < |s| && s[i] == '|';
    x, y := s[..i], s[i + 1..];
  }

  /** Moving a bar of a field to the next gives another line with the same key. */
  lemma Confused(a: Log) returns (b: Log)
    requires !BarFree(a)
    ensures KeyOf(b) == KeyOf(a) && !SameLine(a, b)
  {
    if '|' in a.sourceId {
      var x, y := AtBar(a.sourceId);
      b := a.(sourceId := x, stage := y, level := a.stage, message := a.level + "|" + a.message);
      assert KeyOf(b) == x + "|" + y + "|" + a.stage + "|" + a.level + "|" + a.message;
    } else if '|' in a.stage {
      var x, y := AtBar(a.stage);
      b := a.(stage := x, level := y, message := a.level + "|" + a.message);
      assert KeyOf(b) == a.sourceId + "|" + x + "|" + y + "|" + a.level + "|" + a.message;
    } else if '|' in a.level {
      var x, y := AtBar(a.level);
      b := a.(level := x, message := y + "|" + a.message);
      assert KeyOf(b) == a.sourceId + "|" + a.stage + "|" + x + "|" + y + "|" + a.message;
    } else {
      var x, y := AtBar(a.message);
      b := a.(level := a.level + "|" + x, message := y);
      assert KeyOf(b) == a.sourceId + "|" + a.stage + "|" + a.level + "|" + x + "|" + y;
    }
  }

  /** A line is confused with no other exactly if none of its four fields holds a bar. */
  lemma NeverConfused(a: Log)
    ensures (forall b :: KeyOf(b) == KeyOf(a) ==> SameLine(a, b)) <==> BarFree(a)
  {
    hide KeyOf, SameLine, BarFree;
    if BarFree(a) {
      forall b | KeyOf(b) == KeyOf(a) ensures SameLine(a, b) {
        SameKeyBarFree(a, b);
      }
    } else {
      var b := Confused(a);
      assert !SameLine(a, b);
    }
  }

  // ---------------------------------------------------------------- the history of a task

  ghost function Last(lines: seq<Line>): Line
    requires lines != []
  {
    lines[|lines| - 1]
  }

  ghost function Before(lines: seq<Line>): seq<Line>
    requires lines != []
  {
    lines[..|lines| - 1]
  }

  /** How many equal lines there are at the end. */
  ghost function InARow(lines: seq<Line>): nat {
    if lines == [] then 0
    else if Before(lines) != [] && Last(Before(lines)).key == Last(lines).key then InARow(Before(lines)) + 1
    else 1
  }

  /** When the window of the last line opened: with that line, if none was open or more than 2000 ms have passed. */
  ghost function Opened(lines: seq<Line>): nat
    requires lines != []
  {
    if Before(lines) == [] || Last(lines).now > Opened(Before(lines)) + 2000 then Last(lines).now else Opened(Before(lines))
  }

  /** How many lines there have been since, the last one included. */
  ghost function InWindow(lines: seq<Line>): nat
    requires lines != []
  {
    if Before(lines) == [] || Last(lines).now > Opened(Before(lines)) + 2000 then 1 else InWindow(Before(lines)) + 1
  }

  ghost predicate Positive(lines: seq<Line>) {
    forall i :: 0 <= i < |lines| ==> lines[i].now > 0
  }

  /** The tables hold the history of the task: it is not killed, and they say what these lines say. */
  ghost predicate Remembers(c: Control, id: string, lines: seq<Line>) {
    && id !in c.killed
    && if lines == [] then id !in c.lastKey && id !in c.streak && id !in c.window
       else
         && id in c.lastKey && c.lastKey[id] == Last(lines).key
         && id in c.streak && c.streak[id] + 1 == InARow(lines)
         && id in c.window && c.window[id] == Window(Opened(lines), InWindow(lines))
  }

  /** The fourth equal line in a row and those after it are dropped; the 181st line of a window kills the log. */
  ghost function Judged(lines: seq<Line>): Decision
    requires lines != []
  {
    if InWindow(lines) > 180 then Kill(InWindow(lines))
    else if InARow(lines) > 3 then Drop
    else Emit
  }

  ghost predicate Roomy(c: Control) {
    |c.lastKey| <= 256 && |c.killed| <= 256
  }

  lemma {:induction false} OpenedIsPositive(lines: seq<Line>)
    requires lines != [] && Positive(lines)
    ensures Opened(lines) > 0
  {
    if Before(lines) != [] {
      assert Positive(Before(lines));
      OpenedIsPositive(Before(lines));
    }
  }

  lemma InARowIsPositive(lines: seq<Line>)
    requires lines != []
    ensures InARow(lines) > 0
  {
  }

  /** One more line of the task, judged by its history. */
  lemma LineJudged(c: Control, log: Log, now: nat, lines: seq<Line>)
    requires log.taskId != "" && log.taskId != "unknown" && Roomy(c) && now > 0
    requires Remembers(c, log.taskId, lines) && Positive(lines)
    ensures Evaluate(c, log, now).1 == Judged(lines + [Line(KeyOf(log), now)])
    ensures Judged(lines + [Line(KeyOf(log), now)]).Kill? ==>
      Evaluate(c, log, now).0.killed == c.killed + {log.taskId}
    ensures !Judged(lines + [Line(KeyOf(log), now)]).Kill? ==>
      Remembers(Evaluate(c, log, now).0, log.taskId, lines + [Line(KeyOf(log), now)])
  {
    hide KeyOf;
    var more := lines + [Line(KeyOf(log), now)];
    assert Before(more) == lines && Last(more) == Line(KeyOf(log), now);
    if lines != [] {
      OpenedIsPositive(lines);
      InARowIsPositive(lines);
    }
  }

  /** Nothing changes for other tasks, and a call that finds the tables roomy empties none. */
  lemma OthersKept(c: Control, log: Log, now: nat, id: string, lines: seq<Line>)
    requires Roomy(c) && log.taskId != id && Remembers(c, id, lines)
    ensures Remembers(Evaluate(c, log, now).0, id, lines)
  {
    hide KeyOf, InARow, Opened, InWindow;
  }

  /** Lines without a task are always emitted, those of a killed task never, and neither changes the tables. */
  lemma SpecialLines(c: Control, log: Log, now: nat)
    requires Roomy(c)
    ensures log.taskId == "" ==> Evaluate(c, log, now) == (c, Emit)
    ensures log.taskId != "" && log.taskId in c.killed ==> Evaluate(c, log, now) == (c, Drop)
    ensures log.taskId == "unknown" && log.taskId !in c.killed ==>
      !Evaluate(c, log, now).1.Kill? && Evaluate(c, log, now).0.killed == c.killed
  {
    hide KeyOf;
  }

  /** Tables over 256 entries are emptied before the line is judged: the killed list by itself, the other three together. */
  lemma FullTables(c: Control, log: Log, now: nat)
    ensures |c.killed| > 256 ==> Evaluate(c, log, now) == Evaluate(c.(killed := {}), log, now)
    ensures |c.lastKey| > 256 ==>
      Evaluate(c, log, now) == Evaluate(c.(lastKey := map[], streak := map[], window := map[]), log, now)
  {
    hide KeyOf;
    var none: map<string, string> := map[];
    assert |none| == 0;
  }

  /** Cleaning a task up forgets its lines, but not that it was killed; other tasks are as they were. */
  lemma CleanedExactly(c: Control, id: string, other: string, lines: seq<Line>)
    ensures id !in c.killed ==> Remembers(Cleanup(c, id), id, [])
    ensures Cleanup(c, id).killed == c.killed
    ensures other != id && Remembers(c, other, lines) ==> Remembers(Cleanup(c, id), other, lines)
  {
    hide InARow, Opened, InWindow;
  }

  // ---------------------------------------------------------------- error logs

  /** The error lines of a source, in the order they were pushed. */
  ghost function Errors(pushed: seq<Log>, id: string): seq<Log> {
    if pushed == [] then []
    else (if pushed[0].level == "error" && pushed[0].sourceId == id then [pushed[0]] else []) + Errors(pushed[1..], id)
  }

  lemma {:induction false} ErrorsAppend(a: seq<Log>, b: seq<Log>, id: string)
    ensures Errors(a + b, id) == Errors(a, id) + Errors(b, id)
  {
    if a == [] {
      assert a + b == b;
    } else {
      assert (a + b)[1..] == a[1..] + b;
      ErrorsAppend(a[1..], b, id);
    }
  }

  lemma {:induction false} ErrorsExactly(pushed: seq<Log>, id: string)
    ensures ErrorsOf(pushed, id) == Errors(pushed, id)
  {
    if pushed != [] {
      var init, last := pushed[..|pushed| - 1], pushed[|pushed| - 1];
      ErrorsExactly(init, id);
      assert pushed == init + [last] && [last][1..] == [];
      ErrorsAppend(init, [last], id);
    }
  }

  /** What is kept for a source are its last 80 error lines, or all if they are fewer. */
  lemma KeptErrors(logs: ErrorLogs, id: string)
    requires logs.Valid()
    ensures var kept := if id in logs.bySource then logs.bySource[id] else []; var errors := Errors(logs.pushed, id);
      |kept| == (if |errors| < 80 then |errors| else 80) && kept == errors[|errors| - |kept|..]
  {
    ErrorsExactly(logs.pushed, id);
    hide Errors, ErrorsOf;
  }
}
