/** The bounded log history (node/vm/base/src/logging.rs, `LogBuffer`). */
module LogBuffers {
  import opened Bytes

  const MAX_LINES: nat := 10_000
  const MAX_BYTES: nat := 10 * 1024

  datatype LogEntry = LogEntry(line: Bytes, timestamp: nat)

  function TotalBytes(entries: seq<LogEntry>): nat {
    if entries == [] then 0 else |entries[0].line| + TotalBytes(entries[1..])
  }

  function SaturatingSub(a: nat, b: nat): nat {
    if a >= b then a - b else 0
  }

  /** Below both limits, so eviction stops here. */
  predicate Fits(entries: seq<LogEntry>) {
    |entries| < MAX_LINES && TotalBytes(entries) < MAX_BYTES
  }

  /** `entries[k..]` is the longest suffix that fits. */
  ghost predicate LongestFit(entries: seq<LogEntry>, k: nat) {
    && k <= |entries|
    && Fits(entries[k..])
    && forall j :: 0 <= j < k ==> !Fits(entries[j..])
  }

  /** Closed form of the history after writing `written`: the last entry, preceded by the longest
      run of entries just before it that is under both limits. */
  ghost predicate IsRetained(written: seq<LogEntry>, history: seq<LogEntry>) {
    if written == [] then history == []
    else exists k: nat :: LongestFit(written[..|written| - 1], k) && history == written[k..]
  }

  lemma {:induction false} TotalBytesAppend(a: seq<LogEntry>, b: seq<LogEntry>)
    ensures TotalBytes(a + b) == TotalBytes(a) + TotalBytes(b)
  {
    if a == [] {
      assert a + b == b;
    } else {
      assert (a + b)[1..] == a[1..] + b;
      TotalBytesAppend(a[1..], b);
    }
  }

  /** Dropping the last entry of a fitting run leaves a fitting run. */
  lemma FitsWithoutLast(entries: seq<LogEntry>, e: LogEntry)
    requires Fits(entries + [e])
    ensures Fits(entries)
  {
    TotalBytesAppend(entries, [e]);
  }

  /** What did not fit without the last entry does not fit with it. */
  lemma NoEarlierFit(written: seq<LogEntry>, k: nat, j: nat)
    requires written != [] && LongestFit(written[..|written| - 1], k) && j < k
    ensures !Fits(written[j..])
  {
    var n := |written| - 1;
    assert written[j..] == written[..n][j..] + [written[n]];
    if Fits(written[j..]) {
      FitsWithoutLast(written[..n][j..], written[n]);
    }
  }

  /** Evicting from the retained history finds the same run as searching everything ever written. */
  lemma LongestFitInHistory(written: seq<LogEntry>, history: seq<LogEntry>, d: nat)
    requires IsRetained(written, history) && LongestFit(history, d)
    ensures exists k: nat :: LongestFit(written, k) && history[d..] == written[k..]
  {
    if written == [] {
      assert LongestFit(written, 0) && history[d..] == written[0..];
    } else {
      var n := |written| - 1;
      var k: nat :| LongestFit(written[..n], k) && history == written[k..];
      forall j | 0 <= j < k + d ensures !Fits(written[j..]) {
        if j < k {
          NoEarlierFit(written, k, j);
        } else {
          assert written[j..] == history[j - k..];
        }
      }
      assert written[k + d..] == history[d..];
      assert LongestFit(written, k + d);
    }
  }

  lemma RetainedAfterWrite(written: seq<LogEntry>, history: seq<LogEntry>, d: nat, entry: LogEntry)
    requires IsRetained(written, history) && LongestFit(history, d)
    ensures IsRetained(written + [entry], history[d..] + [entry])
    ensures TotalBytes(history[d..] + [entry]) == TotalBytes(history[d..]) + |entry.line|
  {
    LongestFitInHistory(written, history, d);
    var k: nat :| LongestFit(written, k) && history[d..] == written[k..];
    TotalBytesAppend(history[d..], [entry]);
    assert TotalBytes([entry][1..]) == 0;
    var longer := written + [entry];
    assert longer[..|longer| - 1] == written;
    assert history[d..] + [entry] == longer[k..];
  }

  class LogBuffer {
    var history: seq<LogEntry>
    var currentBytes: nat
    ghost var written: seq<LogEntry>

    ghost predicate Valid()
      reads this
    {
      IsRetained(written, history) && currentBytes == TotalBytes(history)
    }

    constructor ()
      ensures Valid() && written == []
    {
      history, currentBytes, written := [], 0, [];
    }

    /** Every write keeps the closed form; the byte counter stays the true total, so the
        saturating subtraction never has to saturate. */
    method WriteLog(line: Bytes, now: nat)
      requires Valid()
      modifies this
      ensures Valid()
      ensures written == old(written) + [LogEntry(line, now)]
      ensures history != [] && history[|history| - 1] == LogEntry(line, now)
    {
      var entry := LogEntry(line, now);
      ghost var d := 0;
      ghost var before := history;
      while |history| >= MAX_LINES || currentBytes >= MAX_BYTES
        invariant d <= |before| && history == before[d..]
        invariant currentBytes == TotalBytes(history)
        invariant forall j :: 0 <= j < d ==> !Fits(before[j..])
        invariant written == old(written)
        decreases |history|
      {
        if history == [] {
          break;
        }
        var oldEntry := history[0];
        assert history[1..] == before[d + 1..];
        assert currentBytes >= |oldEntry.line|;
        currentBytes := SaturatingSub(currentBytes, |oldEntry.line|);
        history := history[1..];
        d := d + 1;
      }
      RetainedAfterWrite(written, before, d, entry);
      currentBytes := currentBytes + |line|;
      history := history + [entry];
      written := written + [entry];
    }

    /** The last `min(maxLines, available)` entries. */
    method GetTail(maxLines: Option<nat>) returns (r: seq<LogEntry>)
      requires Valid()
      ensures |r| == if maxLines.Some? && maxLines.value < |history| then maxLines.value else |history|
      ensures r == history[|history| - |r|..]
    {
      var wanted := match maxLines case Some(m) => m case None => |history|;
      var take := if wanted < |history| then wanted else |history|;
      if take == 0 {
        return [];
      }
      r := history[|history| - take..];
    }
  }

  /** Whatever was written, at most `MAX_LINES` entries are kept, and everything but the last
      entry is under `MAX_BYTES`. */
  lemma RetainedBounds(written: seq<LogEntry>, history: seq<LogEntry>)
    requires IsRetained(written, history) && written != []
    ensures 0 < |history| <= MAX_LINES
    ensures history[|history| - 1] == written[|written| - 1]
    ensures TotalBytes(history[..|history| - 1]) < MAX_BYTES
  {
    var n := |written| - 1;
    var k: nat :| LongestFit(written[..n], k) && history == written[k..];
    assert history[..|history| - 1] == written[..n][k..];
  }

  /** And no more is dropped than that takes: everything is kept, or there are `MAX_LINES` entries, or those
      before the last would with one older entry reach `MAX_BYTES`. */
  lemma NothingDroppedTooEarly(written: seq<LogEntry>, history: seq<LogEntry>)
    requires IsRetained(written, history) && written != []
    ensures var n, k := |written| - 1, |written| - |history|;
      && k >= 0 && history == written[k..]
      && (k == 0 || |history| == MAX_LINES || TotalBytes(written[k - 1..n]) >= MAX_BYTES)
  {
    var n := |written| - 1;
    var k: nat :| LongestFit(written[..n], k) && history == written[k..];
    if k > 0 {
      assert !Fits(written[..n][k - 1..]);
      assert written[..n][k - 1..] == written[k - 1..n];
    }
  }

  /** The closed form has one solution: the history is a function of what was written. */
  lemma RetainedUnique(written: seq<LogEntry>, h1: seq<LogEntry>, h2: seq<LogEntry>)
    requires IsRetained(written, h1) && IsRetained(written, h2)
    ensures h1 == h2
  {
    if written != [] {
      var all := written[..|written| - 1];
      var k1: nat :| LongestFit(all, k1) && h1 == written[k1..];
      var k2: nat :| LongestFit(all, k2) && h2 == written[k2..];
      assert !(k1 < k2) && !(k2 < k1);
    }
  }
}
