/** Following a game's log: chunked reads that yield the file's lines, and the limit on how
    many lines are let through. */
module GameLog {
  import opened Prelude
  import opened Text

  const MAX_BUFFER := 128 * 1024
  const MAX_CHUNK := 64 * 1024
  const NEWLINE := '\n'

  /** The read state of one followed file. Characters stand for bytes. */
  datatype Followed = Followed(offset: nat, pending: string)

  /** What a poll finds: the file cannot be examined, or it holds content, of which one read
      returns some bytes at the offset, or none if the file shrank meanwhile. */
  datatype Poll = Unreadable | Holds(content: string, shrank: bool)

  function Complete(parts: seq<string>): seq<string>
    requires |parts| >= 1
  {
    parts[..|parts| - 1]
  }

  function Rest(parts: seq<string>): string
    requires |parts| >= 1
  {
    parts[|parts| - 1]
  }

  /** readChunk: a file that became shorter is read again from its start. */
  function Read(f: Followed, content: string, shrank: bool): (Followed, string) {
    var g := if |content| < f.offset then Followed(0, "") else f;
    if |content| == g.offset then (g, "")
    else if shrank then (g.(offset := 0), "")
    else
      var n := Least(|content| - g.offset, MAX_CHUNK);
      (g.(offset := g.offset + n), content[g.offset..g.offset + n])
  }

  /** One tick: the file's new state and the lines it hands over, in order. */
  function Ticked(f: Followed, poll: Poll, final: bool): (Followed, seq<string>) {
    if poll.Unreadable? then (f, [])
    else
      var (g, chunk) := Read(f, poll.content, poll.shrank);
      var text := g.pending + chunk;
      if |text| > MAX_BUFFER then (g.(pending := ""), [])
      else
        var parts := Split(text, NEWLINE);
        if final && Rest(parts) != "" then (g.(pending := ""), parts)
        else (g.(pending := Rest(parts)), Complete(parts))
  }

  class LogFile {
    var offset: nat
    var pending: string
    ghost var handed: seq<string>

    ghost function View(): Followed
      reads this
    {
      Followed(offset, pending)
    }

    method ReadChunk(content: string, shrank: bool) returns (chunk: string)
      modifies this
      ensures (View(), chunk) == Read(old(View()), content, shrank)
      ensures handed == old(handed)
    {
      if |content| < offset {
        offset, pending := 0, "";
      }
      if |content| == offset {
        return "";
      }
      var remaining := |content| - offset;
      if remaining > MAX_CHUNK {
        remaining := MAX_CHUNK;
      }
      if shrank {
        offset := 0;
        return "";
      }
      chunk := content[offset..offset + remaining];
      offset := offset + remaining;
    }

    /** The lines that are complete go out, in order. */
    method ForwardLines()
      modifies this`pending, this`handed
      ensures handed + [pending] == old(handed) + Split(old(pending), NEWLINE)
    {
      ghost var text, before := pending, handed;
      while true
        invariant handed + Split(pending, NEWLINE) == before + Split(text, NEWLINE)
        decreases |pending|
      {
        var newline := IndexOf(pending, NEWLINE);
        if newline < 0 {
          break;
        }
        ghost var line, rest := pending[..newline], pending[newline + 1..];
        assert pending == line + [NEWLINE] + rest;
        SplitFirst(line, rest, NEWLINE);
        assert handed + Split(pending, NEWLINE) == (handed + [line]) + Split(rest, NEWLINE);
        handed := handed + [pending[..newline]];
        pending := pending[newline + 1..];
      }
      SplitNothing(pending, NEWLINE);
    }

    /** handed collects the lines given to forward. */
    method TickFile(poll: Poll, final: bool)
      modifies this
      ensures View() == Ticked(old(View()), poll, final).0
      ensures handed == old(handed) + Ticked(old(View()), poll, final).1
    {
      hide Split, Read;
      if poll.Unreadable? {
        return;
      }
      var chunk := ReadChunk(poll.content, poll.shrank);
      if |chunk| == 0 && pending == "" {
        SplitNothing("", NEWLINE);
        assert pending + chunk == "";
        return;
      }
      pending := pending + chunk;
      if |pending| > MAX_BUFFER {
        pending := "";
        return;
      }
      ghost var text, before := pending, handed;
      ForwardLines();
      LastIsKept(before, Split(text, NEWLINE), handed, pending);
      if final && pending != "" {
        handed := handed + [pending];
        pending := "";
      }
    }
  }

  lemma LastIsKept(before: seq<string>, parts: seq<string>, after: seq<string>, last: string)
    requires |parts| >= 1 && after + [last] == before + parts
    ensures last == Rest(parts) && after == before + Complete(parts) && after + [last] == before + parts
  {
    assert (after + [last])[..|after|] == after && (after + [last])[|after|] == last;
  }

  method IndexOf(s: string, c: char) returns (i: int)
    ensures i == -1 ==> c !in s
    ensures i != -1 ==> 0 <= i < |s| && s[i] == c && c !in s[..i]
  {
    for j := 0 to |s|
      invariant c !in s[..j]
    {
      if s[j] == c {
        return j;
      }
    }
    return -1;
  }

  /** A file that became shorter is followed from its start, like a new one; also if it
      becomes shorter just before it is read, from the next tick on. */
  lemma TruncatedIsReadAgain(f: Followed, content: string, shrank: bool, final: bool)
    ensures |content| < f.offset ==>
              Ticked(f, Holds(content, shrank), final) == Ticked(Followed(0, ""), Holds(content, shrank), final)
    ensures |content| > f.offset && f.pending == "" ==> Ticked(f, Holds(content, true), false) == (Followed(0, ""), [])
  {
    SplitNothing("", NEWLINE);
    assert "" + "" == "";
  }

  /** A line that outgrows 128 KiB is dropped, and what follows is read on from there. */
  lemma BlobIsDropped(f: Followed, content: string, final: bool)
    requires f.offset <= |content|
    ensures var n := Least(|content| - f.offset, 65536);
            |f.pending| + n > 131072 ==> Ticked(f, Holds(content, false), final) == (Followed(f.offset + n, ""), [])
  {
    assert content[f.offset..f.offset] == "";
  }

  // ---- Lines do not depend on chunks

  predicate LinesFit(content: string) {
    forall i :: 0 <= i < |Split(content, NEWLINE)| ==> |Split(content, NEWLINE)[i]| <= MAX_CHUNK
  }

  /** A log that only grows. */
  predicate Grows(contents: seq<string>) {
    forall i, j :: 0 <= i < j < |contents| ==> contents[i] <= contents[j]
  }

  function AfterTicks(f: Followed, contents: seq<string>): (Followed, seq<string>) {
    if contents == [] then (f, [])
    else
      var (g, lines) := AfterTicks(f, contents[..|contents| - 1]);
      var (h, more) := Ticked(g, Holds(contents[|contents| - 1], false), false);
      (h, lines + more)
  }

  /** What the tailer has handed over and kept is the split of what it has read. */
  predicate InStep(start: nat, content: string, f: Followed, lines: seq<string>) {
    && start <= f.offset <= |content|
    && Split(content[start..f.offset], NEWLINE) == lines + [f.pending]
  }

  lemma {:induction false} PartsOfPrefix(s: string, n: nat)
    requires n <= |s|
    ensures var parts := Split(s[..n], NEWLINE);
            |Rest(parts)| <= n && (LinesFit(s) ==> |Rest(parts)| <= MAX_CHUNK)
  {
    hide Split;
    var parts := Split(s[..n], NEWLINE);
    SplitFurther(s[..n], s[n..], NEWLINE);
    SplitIsInverse(s[..n], NEWLINE);
    assert s[..n] + s[n..] == s;
    FirstPartGrows(Rest(parts), s[n..]);
    var all := Split(s, NEWLINE);
    assert |Split(Rest(parts) + s[n..], NEWLINE)[0]| == |all[|parts| - 1]|;
    RestIsShorter(s[..n]);
  }

  lemma RestIsShorter(s: string)
    ensures |Rest(Split(s, NEWLINE))| <= |s|
    decreases |s|
  {
    SplitIsInverse(s, NEWLINE);
    JoinedIsLonger(Split(s, NEWLINE));
  }

  lemma {:induction false} JoinedIsLonger(parts: seq<string>)
    requires |parts| >= 1
    ensures |Rest(parts)| <= |Joined(parts, NEWLINE)|
  {
    if |parts| > 1 {
      JoinedIsLonger(parts[1..]);
    }
  }

  /** The last part of a text has no newline, so more text makes it longer. */
  lemma FirstPartGrows(last: string, more: string)
    requires NEWLINE !in last
    ensures |Split(last + more, NEWLINE)[0]| >= |last|
  {
    var parts := Split(last + more, NEWLINE);
    SplitIsInverse(last + more, NEWLINE);
    assert |parts| > 1 ==> (last + more)[|parts[0]|] == NEWLINE;
    assert forall i :: 0 <= i < |last| ==> (last + more)[i] == last[i] && last[i] in last;
  }

  lemma PrefixLinesFit(s: string, n: nat)
    requires n <= |s| && LinesFit(s)
    ensures LinesFit(s[..n])
  {
    hide Split;
    var parts := Split(s[..n], NEWLINE);
    PartsOfPrefix(s, n);
    SplitFurther(s[..n], s[n..], NEWLINE);
    assert s[..n] + s[n..] == s;
    assert forall i :: 0 <= i < |parts| - 1 ==> Split(s, NEWLINE)[i] == parts[i];
  }

  /** One tick on a log that has grown keeps the tailer in step with it. */
  lemma TickKeepsStep(start: nat, before: string, content: string, f: Followed, lines: seq<string>, final: bool)
    requires InStep(start, before, f, lines) && before <= content && LinesFit(content[start..])
    ensures var (g, more) := Ticked(f, Holds(content, false), final);
            && g.offset == Least(|content|, f.offset + MAX_CHUNK)
            && var parts := Split(content[start..g.offset], NEWLINE);
            if final && Rest(parts) != "" then g.pending == "" && lines + more == parts
            else g.pending == Rest(parts) && lines + more == Complete(parts)
  {
    hide Split;
    var (g, chunk) := Read(f, content, false);
    var read, all := content[start..f.offset], content[start..];
    assert read == before[start..f.offset] == all[..f.offset - start];
    PartsOfPrefix(all, f.offset - start);
    assert Rest(lines + [f.pending]) == f.pending && Complete(lines + [f.pending]) == lines;
    SplitFurther(read, chunk, NEWLINE);
    assert content[start..g.offset] == read + chunk;
    var parts := Split(f.pending + chunk, NEWLINE);
    assert Split(content[start..g.offset], NEWLINE) == lines + parts;
    assert Rest(lines + parts) == Rest(parts) && Complete(lines + parts) == lines + Complete(parts);
  }

  /** For a log that only grows and whose lines fit in a chunk: after any sequence of ticks
      the lines handed over are exactly the complete lines of what has been read, wherever
      the reads began and ended, and the rest is kept. */
  lemma {:induction false} LinesDoNotDependOnChunks(start: nat, contents: seq<string>)
    requires contents != [] && Grows(contents) && start <= |contents[0]|
    requires LinesFit(contents[|contents| - 1][start..])
    ensures var content := contents[|contents| - 1];
            var (f, lines) := AfterTicks(Followed(start, ""), contents);
            && InStep(start, content, f, lines)
            && lines == Complete(Split(content[start..f.offset], NEWLINE))
            && f.pending == Rest(Split(content[start..f.offset], NEWLINE))
  {
    hide Split, Ticked;
    var last := |contents| - 1;
    var content := contents[last];
    var (g, lines) := AfterTicks(Followed(start, ""), contents[..last]);
    if last == 0 {
      assert contents[..0] == [] && content[start..start] == "";
      SplitNothing("", NEWLINE);
      assert [] + [""] == [""];
      TickKeepsStep(start, content, content, g, lines, false);
    } else {
      var before := contents[last - 1];
      assert before <= content;
      assert before[start..] == content[start..][..|before| - start];
      PrefixLinesFit(content[start..], |before| - start);
      LinesDoNotDependOnChunks(start, contents[..last]);
      TickKeepsStep(start, before, content, g, lines, false);
    }
    var (f, all) := AfterTicks(Followed(start, ""), contents);
    var parts := Split(content[start..f.offset], NEWLINE);
    assert Complete(parts) + [Rest(parts)] == parts;
  }

  /** The lines of a file that is finished: a last one without a newline counts. */
  function AllLines(s: string): seq<string> {
    var parts := Split(s, NEWLINE);
    if Rest(parts) == "" then Complete(parts) else parts
  }

  /** The text ends inside a line. */
  predicate EndsInLine(s: string) {
    s != "" && s[|s| - 1] != NEWLINE
  }

  function WithNewlines(lines: seq<string>): string {
    if lines == [] then "" else lines[0] + [NEWLINE] + WithNewlines(lines[1..])
  }

  lemma {:induction false} WithNewlinesOfComplete(parts: seq<string>)
    requires |parts| >= 1
    ensures WithNewlines(Complete(parts)) + Rest(parts) == Joined(parts, NEWLINE)
    ensures WithNewlines(parts) == Joined(parts, NEWLINE) + [NEWLINE]
  {
    if |parts| > 1 {
      assert Complete(parts)[0] == parts[0] && Complete(parts)[1..] == Complete(parts[1..]);
      WithNewlinesOfComplete(parts[1..]);
    }
  }

  /** All lines, each with its newline, are the text again, with a newline if it lacked one. */
  lemma AllLinesAreTheText(s: string)
    ensures Rest(Split(s, NEWLINE)) != "" <==> EndsInLine(s)
    ensures WithNewlines(AllLines(s)) == if EndsInLine(s) then s + [NEWLINE] else s
  {
    hide Split, Joined;
    var parts := Split(s, NEWLINE);
    SplitIsInverse(s, NEWLINE);
    WithNewlinesOfComplete(parts);
    LinesEnd(Complete(parts));
    var body, rest := WithNewlines(Complete(parts)), Rest(parts);
    if rest != "" {
      assert s[|s| - 1] == rest[|rest| - 1];
      assert rest[|rest| - 1] in rest;
    } else {
      assert s == body;
    }
  }

  lemma {:induction false} LinesEnd(lines: seq<string>)
    ensures !EndsInLine(WithNewlines(lines))
  {
    if lines != [] {
      LinesEnd(lines[1..]);
    }
  }

  /** A longer text has the same lines only if all it adds is the newline of its last one. */
  lemma SameLinesIff(s: string, more: string)
    ensures AllLines(s + more) == AllLines(s) <==> more == "" || (more == [NEWLINE] && EndsInLine(s))
  {
    hide Split, AllLines, WithNewlines;
    AllLinesAreTheText(s);
    AllLinesAreTheText(s + more);
    if more == "" {
      assert s + more == s;
    } else if AllLines(s + more) == AllLines(s) {
      assert s + more <= WithNewlines(AllLines(s));
      assert (s + more)[|s|..] == more && (s + [NEWLINE])[|s|..] == [NEWLINE];
    } else if more == [NEWLINE] && EndsInLine(s) {
      NewlineEndsLine(s);
    }
  }

  lemma NewlineEndsLine(s: string)
    requires EndsInLine(s)
    ensures AllLines(s + [NEWLINE]) == AllLines(s)
  {
    hide Split;
    AllLinesAreTheText(s);
    var parts := Split(s, NEWLINE);
    SplitFurther(s, [NEWLINE], NEWLINE);
    SplitIsInverse(s, NEWLINE);
    SplitFirst(Rest(parts), "", NEWLINE);
    SplitNothing("", NEWLINE);
    assert Rest(parts) + [NEWLINE] + "" == Rest(parts) + [NEWLINE];
    assert Split(s + [NEWLINE], NEWLINE) == Complete(parts) + [Rest(parts), ""];
    assert Complete(parts) + [Rest(parts)] == parts;
  }

  /** The last tick reads once. So it hands over every line of the file, an unfinished one
      included, exactly when one read reaches the end, or misses it by a single byte that is
      the newline of the line it stopped in. */
  lemma LastTickHandsOverAllIff(start: nat, content: string, f: Followed, lines: seq<string>)
    requires InStep(start, content, f, lines) && LinesFit(content[start..])
    ensures var more := Ticked(f, Holds(content, false), true).1;
            var left := |content| - f.offset;
            lines + more == AllLines(content[start..]) <==>
            || left <= MAX_CHUNK
            || (left == MAX_CHUNK + 1 && content[|content| - 1] == NEWLINE && content[|content| - 2] != NEWLINE)
  {
    hide Split, Ticked;
    TickKeepsStep(start, content, content, f, lines, true);
    var (g, more) := Ticked(f, Holds(content, false), true);
    var read, rest := content[start..g.offset], content[g.offset..];
    assert content[start..] == read + rest;
    assert lines + more == AllLines(read);
    SameLinesIff(read, rest);
    if |content| - f.offset > MAX_CHUNK {
      assert read != "" && read[|read| - 1] == content[g.offset - 1];
      assert rest != "" && rest[0] == content[g.offset];
      assert rest == [NEWLINE] <==> |rest| == 1 && rest[0] == NEWLINE;
    }
  }

  // ---- The limit on forwarded lines

  const SECOND := 1_000_000_000
  const PER_SECOND := 50

  /** Times are nanoseconds of a monotone clock. */
  datatype Limiter = Limiter(window: int, lines: nat)

  function Asked(l: Limiter, now: int): (Limiter, bool) {
    var m := if now - l.window >= SECOND then Limiter(now, 0) else l;
    if m.lines >= PER_SECOND then (m, false) else (m.(lines := m.lines + 1), true)
  }

  class Tailer {
    var window: int
    var lines: nat

    method AllowLine(now: int) returns (allowed: bool)
      modifies this
      ensures (Limiter(window, lines), allowed) == Asked(Limiter(old(window), old(lines)), now)
    {
      if now - window >= SECOND {
        window := now;
        lines := 0;
      }
      if lines >= PER_SECOND {
        return false;
      }
      lines := lines + 1;
      return true;
    }
  }

  /** Of the requests in a window of one second the first fifty are let through and the
      others refused, whatever came before the window. */
  lemma {:induction false} FiftyInAWindow(l: Limiter, times: seq<int>, i: nat)
    requires i < |times| && times[0] - l.window >= 1_000_000_000
    requires forall j :: 0 <= j < |times| ==> times[0] <= times[j] < times[0] + 1_000_000_000
    ensures AfterAsks(l, times[..i + 1]) == Limiter(times[0], if i < 50 then i + 1 else 50)
    ensures Asked(AfterAsks(l, times[..i]), times[i]).1 <==> i < 50
    decreases i
  {
    assert times[..i + 1][..i] == times[..i];
    if i > 0 {
      FiftyInAWindow(l, times, i - 1);
    }
  }

  predicate Monotone(times: seq<int>) {
    forall i, j :: 0 <= i < j < |times| ==> times[i] <= times[j]
  }

  function AfterAsks(l: Limiter, times: seq<int>): Limiter {
    if times == [] then l else Asked(AfterAsks(l, times[..|times| - 1]), times[|times| - 1]).0
  }

  /** How many lines were let through from time a on and before time b. */
  function Through(l: Limiter, times: seq<int>, a: int, b: int): nat {
    if times == [] then 0
    else
      var last := |times| - 1;
      var counts := a <= times[last] < b && Asked(AfterAsks(l, times[..last]), times[last]).1;
      Through(l, times[..last], a, b) + if counts then 1 else 0
  }

  /** The bounds that each request keeps: the current window, the one before it as far as
      less than a second back, and any interval of a second. */
  ghost predicate Bounded(l: Limiter, times: seq<int>) {
    var m := AfterAsks(l, times);
    && m.lines <= PER_SECOND
    && (times != [] ==> m.window <= times[|times| - 1] < m.window + SECOND)
    && (forall a, b :: a >= m.window ==> Through(l, times, a, b) <= m.lines)
    && (forall a, b :: m.window - SECOND < a && b <= m.window ==> Through(l, times, a, b) <= PER_SECOND)
    && (forall a, b :: b <= a + SECOND ==> Through(l, times, a, b) <= 2 * PER_SECOND)
  }

  lemma {:induction false} ThroughSplits(l: Limiter, times: seq<int>, a: int, b: int, c: int)
    requires a <= b <= c
    ensures Through(l, times, a, c) == Through(l, times, a, b) + Through(l, times, b, c)
  {
    hide Asked;
    if times != [] {
      ThroughSplits(l, times[..|times| - 1], a, b, c);
    }
  }

  lemma {:induction false} NothingLater(l: Limiter, times: seq<int>, a: int, b: int)
    requires forall i :: 0 <= i < |times| ==> times[i] < a
    ensures Through(l, times, a, b) == 0
  {
    hide Asked;
    if times != [] {
      NothingLater(l, times[..|times| - 1], a, b);
    }
  }

  predicate Ready(l: Limiter, times: seq<int>) {
    l.lines <= PER_SECOND && Monotone(times) && (times != [] ==> l.window <= times[0])
  }

  /** A request that starts a new window. */
  lemma NewWindowKeepsBounds(l: Limiter, times: seq<int>, a: int, b: int)
    requires times != [] && Ready(l, times) && Bounded(l, times[..|times| - 1])
    requires times[|times| - 1] - AfterAsks(l, times[..|times| - 1]).window >= SECOND
    ensures var m := AfterAsks(l, times);
            && m == Limiter(times[|times| - 1], 1)
            && (a >= m.window ==> Through(l, times, a, b) <= m.lines)
            && (m.window - SECOND < a && b <= m.window ==> Through(l, times, a, b) <= PER_SECOND)
            && (b <= a + SECOND ==> Through(l, times, a, b) <= 2 * PER_SECOND)
  {
    hide Bounded;
    var last := |times| - 1;
    var before, now := times[..last], times[last];
    FromBounded(l, before, a, b);
    if a >= now {
      assert forall i :: 0 <= i < last ==> before[i] <= before[last - 1];
      NothingLater(l, before, a, b);
    }
  }

  /** A request in the current window. */
  lemma SameWindowKeepsBounds(l: Limiter, times: seq<int>, a: int, b: int)
    requires times != [] && Ready(l, times) && Bounded(l, times[..|times| - 1])
    requires times[|times| - 1] - AfterAsks(l, times[..|times| - 1]).window < SECOND
    ensures var m := AfterAsks(l, times);
            && m.window == AfterAsks(l, times[..|times| - 1]).window <= times[|times| - 1]
            && m.lines <= PER_SECOND
            && (a >= m.window ==> Through(l, times, a, b) <= m.lines)
            && (m.window - SECOND < a && b <= m.window ==> Through(l, times, a, b) <= PER_SECOND)
  {
    hide Bounded;
    FromBounded(l, times[..|times| - 1], a, b);
  }

  lemma FromBounded(l: Limiter, times: seq<int>, a: int, b: int)
    requires Bounded(l, times)
    ensures var m := AfterAsks(l, times);
            && m.lines <= PER_SECOND
            && (if times == [] then m == l else m.window <= times[|times| - 1] < m.window + SECOND)
            && (a >= m.window ==> Through(l, times, a, b) <= m.lines)
            && (m.window - SECOND < a && b <= m.window ==> Through(l, times, a, b) <= PER_SECOND)
            && (b <= a + SECOND ==> Through(l, times, a, b) <= 2 * PER_SECOND)
  {
  }

  lemma {:induction false} RequestsKeepBounds(l: Limiter, times: seq<int>)
    requires Ready(l, times)
    ensures Bounded(l, times)
    decreases |times|
  {
    hide AfterAsks, Through, Bounded, Asked;
    if times == [] {
      NoRequests(l);
    } else {
      var last := |times| - 1;
      var before, now := times[..last], times[last];
      RequestsKeepBounds(l, before);
      var m, w := AfterAsks(l, times), AfterAsks(l, before).window;
      FromBounded(l, before, 0, 0);
      if now - w >= SECOND {
        NewWindowKeepsBounds(l, times, 0, 0);
        forall a, b
          ensures (a >= m.window ==> Through(l, times, a, b) <= m.lines)
                  && (m.window - SECOND < a && b <= m.window ==> Through(l, times, a, b) <= PER_SECOND)
                  && (b <= a + SECOND ==> Through(l, times, a, b) <= 2 * PER_SECOND)
        {
          NewWindowKeepsBounds(l, times, a, b);
        }
      } else {
        SameWindowKeepsBounds(l, times, 0, 0);
        forall a, b
          ensures (a >= m.window ==> Through(l, times, a, b) <= m.lines)
                  && (m.window - SECOND < a && b <= m.window ==> Through(l, times, a, b) <= PER_SECOND)
                  && (b <= a + SECOND ==> Through(l, times, a, b) <= 2 * PER_SECOND)
        {
          SameWindowKeepsBounds(l, times, a, b);
          AnySecond(l, times, a, b);
        }
      }
      ToBounded(l, times);
    }
  }

  lemma NoRequests(l: Limiter)
    requires l.lines <= PER_SECOND
    ensures Bounded(l, [])
  {
  }

  lemma ToBounded(l: Limiter, times: seq<int>)
    requires times != []
    requires var m := AfterAsks(l, times);
             && m.lines <= PER_SECOND
             && m.window <= times[|times| - 1] < m.window + SECOND
             && (forall a, b :: (a >= m.window ==> Through(l, times, a, b) <= m.lines)
                                && (m.window - SECOND < a && b <= m.window ==> Through(l, times, a, b) <= PER_SECOND)
                                && (b <= a + SECOND ==> Through(l, times, a, b) <= 2 * PER_SECOND))
    ensures Bounded(l, times)
  {
    hide AfterAsks, Through;
  }

  /** Any second meets at most two windows. */
  lemma AnySecond(l: Limiter, times: seq<int>, a: int, b: int)
    requires times != [] && Ready(l, times) && Bounded(l, times[..|times| - 1])
    requires times[|times| - 1] - AfterAsks(l, times[..|times| - 1]).window < SECOND
    ensures b <= a + SECOND ==> Through(l, times, a, b) <= 2 * PER_SECOND
  {
    hide Bounded, AfterAsks, Asked;
    var last := |times| - 1;
    var m := AfterAsks(l, times);
    FromBounded(l, times[..last], a, b);
    if a <= times[last] < b <= a + SECOND {
      SameWindowKeepsBounds(l, times, a, b);
      if a < m.window {
        ThroughSplits(l, times, a, m.window, b);
        SameWindowKeepsBounds(l, times, a, m.window);
        SameWindowKeepsBounds(l, times, m.window, b);
      }
    }
  }

  /** However often lines are asked for, no half-open interval of one second lets more than
      twice the limit through. */
  lemma AtMostAHundredPerSecond(l: Limiter, times: seq<int>, from: int)
    requires Ready(l, times)
    ensures Through(l, times, from, from + SECOND) <= 100
  {
    hide AfterAsks, Through;
    RequestsKeepBounds(l, times);
  }
}
