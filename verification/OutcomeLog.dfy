/** Logging a history without its repetitions. */
module OutcomeLog {

  /** The history with every element equal to the one right before it removed. */
  function Destutter<T(==)>(history: seq<T>): (log: seq<T>)
    ensures history != [] ==> log != [] && log[|log| - 1] == history[|history| - 1]
    ensures log == [] ==> history == []
  {
    if history == [] then []
    else
      var n := |history| - 1;
      var before := Destutter(history[..n]);
      if n > 0 && history[n - 1] == history[n] then before else before + [history[n]]
  }

  /** The position in the log of the entry that stands for position i of the history. */
  function EntryOf<T(==)>(history: seq<T>, i: nat): (k: nat)
    requires i < |history|
    ensures k < |Destutter(history[..i + 1])|
  {
    |Destutter(history[..i + 1])| - 1
  }

  lemma {:induction false} DestutterPrefix<T>(history: seq<T>, n: nat)
    requires n <= |history|
    ensures Destutter(history[..n]) <= Destutter(history)
  {
    if n == |history| {
      assert history[..n] == history;
    } else {
      assert history[..|history| - 1][..n] == history[..n];
      DestutterPrefix(history[..|history| - 1], n);
    }
  }

  /** No log entry equals the one before it. */
  lemma {:induction false} NoAdjacentRepeats<T>(history: seq<T>)
    ensures forall k | 0 < k < |Destutter(history)| :: Destutter(history)[k - 1] != Destutter(history)[k]
  {
    if history != [] {
      NoAdjacentRepeats(history[..|history| - 1]);
    }
  }

  /** One more element of the history adds a log entry exactly when it differs from the one before it. */
  lemma DestutterStep<T>(history: seq<T>, n: nat)
    requires n < |history|
    ensures Destutter(history[..n + 1])
         == if n > 0 && history[n - 1] == history[n] then Destutter(history[..n]) else Destutter(history[..n]) + [history[n]]
  {
    assert history[..n + 1][..n] == history[..n];
  }

  /**
   The log tells the history up to repetition: position i stands in it at the entry counted by the changes up to i, the
   first position at the first entry, the last at the last, and the entry moves on, by one, exactly where the history changes.
   */
  lemma LogTellsHistory<T>(history: seq<T>, i: nat)
    requires i < |history|
    ensures EntryOf(history, i) < |Destutter(history)| && Destutter(history)[EntryOf(history, i)] == history[i]
    ensures i == 0 ==> EntryOf(history, i) == 0
    ensures i + 1 == |history| ==> EntryOf(history, i) == |Destutter(history)| - 1
    ensures i + 1 < |history| ==>
      EntryOf(history, i + 1) == EntryOf(history, i) + if history[i] == history[i + 1] then 0 else 1
  {
    DestutterPrefix(history, i + 1);
    DestutterStep(history, i);
    if i + 1 < |history| {
      DestutterStep(history, i + 1);
    } else {
      assert history[..i + 1] == history;
    }
  }
}
