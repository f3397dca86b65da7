/**
 * `AUPDebugger`: an append-only history of log lines tagged with a fixed
 * context name. The timestamp, which the source reads from the clock, is a
 * parameter here.
 */
module AupDebugger {
  import opened JsString

  /** The arrow between timestamp and message in an ordinary entry. */
  const LogMark := " \U{2192} "

  /** The cross mark between timestamp and message in an error entry. */
  const ErrorMark := " \U{274C} "

  function Tag(context: string, ts: string): string {
    "[" + context + "] " + ts
  }

  /** The entry `log` records: the tag, the arrow, then the message. It starts with the bracketed context and ends with the message. */
  function LogEntry(context: string, ts: string, message: string): (e: string)
    ensures |e| >= |context| + 2 + |message|
    ensures e[..|context| + 2] == "[" + context + "]"
    ensures e[|e| - |message|..] == message
  {
    var e := Tag(context, ts) + LogMark + message;
    assert e == "[" + context + "]" + (" " + ts + LogMark + message);
    assert e == (Tag(context, ts) + LogMark) + message;
    e
  }

  /** The entry `error` records: the tag, the cross mark, then the error text, which can be read back the same way. */
  function ErrorEntry(context: string, ts: string, err: string): (e: string)
    ensures |e| >= |context| + 2 + |err|
    ensures e[..|context| + 2] == "[" + context + "]"
    ensures e[|e| - |err|..] == err
  {
    var e := Tag(context, ts) + ErrorMark + err;
    assert e == "[" + context + "]" + (" " + ts + ErrorMark + err);
    assert e == (Tag(context, ts) + ErrorMark) + err;
    e
  }

  /** With the same context and timestamp, an ordinary entry and an error entry always differ. */
  lemma {:induction false} LogAndErrorDiffer(context: string, ts: string, message: string, err: string)
    ensures LogEntry(context, ts, message) != ErrorEntry(context, ts, err)
  {
    var k := |Tag(context, ts)| + 1;
    assert LogEntry(context, ts, message)[k] == '\U{2192}';
    assert ErrorEntry(context, ts, err)[k] == '\U{274C}';
  }

  class AUPDebugger {
    /** Set once by the constructor. */
    const context: string
    var logs: seq<string>

    constructor(context: string)
      ensures this.context == context && logs == []
    {
      this.context := context;
      logs := [];
    }

    /** `log`: one entry at the end, the earlier ones untouched. */
    method Log(message: string, ts: string)
      modifies this
      ensures logs == old(logs) + [LogEntry(context, ts, message)]
      ensures old(logs) != [] ==> GetHistory() == old(GetHistory()) + "\n" + LogEntry(context, ts, message)
    {
      var entry := LogEntry(context, ts, message);
      AppendedHistory(logs, entry);
      logs := logs + [entry];
    }

    /** `error`: the same for an error, with its text as the caller renders it. */
    method Error(err: string, ts: string)
      modifies this
      ensures logs == old(logs) + [ErrorEntry(context, ts, err)]
      ensures old(logs) != [] ==> GetHistory() == old(GetHistory()) + "\n" + ErrorEntry(context, ts, err)
    {
      var entry := ErrorEntry(context, ts, err);
      AppendedHistory(logs, entry);
      logs := logs + [entry];
    }

    /**
     * `getHistory`: the entries in order, one per line. When no entry holds
     * a line break, splitting the history at line breaks gives the entries
     * back.
     */
    function GetHistory(): (h: string)
      reads this
      ensures logs == [] ==> h == ""
      ensures logs != [] && (forall i :: 0 <= i < |logs| ==> '\n' !in logs[i]) ==> Split(h, '\n') == logs
    {
      HistoryLines(logs);
      Join(logs, "\n")
    }
  }

  /** Entries without line breaks come back from their join when it is split at line breaks. */
  lemma {:induction false} HistoryLines(logs: seq<string>)
    ensures logs != [] && (forall i :: 0 <= i < |logs| ==> '\n' !in logs[i]) ==> Split(Join(logs, "\n"), '\n') == logs
  {
    if logs != [] && (forall i :: 0 <= i < |logs| ==> '\n' !in logs[i]) {
      SplitJoin(logs, '\n');
    }
  }

  /** Joining one more entry adds a line break and the entry. */
  lemma {:induction false} AppendedHistory(logs: seq<string>, entry: string)
    ensures logs != [] ==> Join(logs + [entry], "\n") == Join(logs, "\n") + "\n" + entry
  {
    if logs != [] {
      JoinAppend(logs, [entry], "\n");
    }
  }
}
