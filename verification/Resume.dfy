/** One download request: the retried GET, the partial file it appends to or truncates,
    and the logical download that pauses and resumes it. */
module Resume {
  import opened Prelude

  type Byte = bv8
  type Bytes = seq<Byte>

  const MAX_ATTEMPTS := 3

  /** The two files of a download: the destination and the partial file beside it. */
  datatype Files = Files(partial: Option<Bytes>, destination: Option<Bytes>)

  /** maximum is 0 for no limit; accepts is the checksum comparison, and always true
      when no checksum is expected. */
  datatype Request = Request(resume: bool, maximum: nat, accepts: Bytes -> bool)

  datatype Error = Cancelled | Status(code: nat) | TooLarge | Transport | Storage | WrongChecksum

  datatype Outcome = Done | Failed(error: Error)

  // ---- What the network and the disk decide

  type ErrorCode = code: nat | code < 200 || code >= 300 witness 404

  /** One GET. A server may ignore the Range header and may leave out the length. */
  datatype Reply = Served(ranged: bool, sized: bool) | Refused(code: ErrorCode) | NoAnswer | Interrupted

  datatype After = More | End | Broken | WriteFails(written: nat)

  /** One turn of the copy loop: the context is found cancelled, or a read gives up to n
      bytes. */
  datatype Turn = Pause | Read(n: nat, after: After)

  datatype Attempt = Attempt(replies: seq<Reply>, turns: seq<Turn>, opens: bool, closes: bool,
                             digests: bool, renames: bool, removes: bool, withdrawn: bool)

  datatype Response = Response(code: nat, body: Bytes, sized: bool)

  /** Sections 14.2, 15.3.7 and 15.5.17 of RFC 9110. */
  function Respond(content: Bytes, offset: nat, reply: Reply): Response
    requires reply.Served? || reply.Refused?
  {
    if reply.Refused? then Response(reply.code, [], false)
    else if offset == 0 || !reply.ranged then Response(200, content, reply.sized)
    else if offset < |content| then Response(206, content[offset..], reply.sized)
    else Response(416, [], false)
  }

  // ---- The request

  datatype Answer = Answered(reply: Reply) | Unanswered(error: Error)

  function Requested(replies: seq<Reply>, attempt: nat): (answer: Answer)
    ensures answer.Answered? ==> answer.reply.Served? || answer.reply.Refused?
    ensures answer.Unanswered? ==> answer.error.Cancelled? || answer.error.Transport?
  {
    if replies == [] || replies[0].Interrupted? then Unanswered(Cancelled)
    else if !replies[0].NoAnswer? then Answered(replies[0])
    else if attempt >= MAX_ATTEMPTS then Unanswered(Transport)
    else Requested(replies[1..], attempt + 1)
  }

  predicate Silent(replies: seq<Reply>, n: nat) {
    n <= |replies| && forall i :: 0 <= i < n ==> replies[i].NoAnswer?
  }

  predicate FirstAnswer(replies: seq<Reply>, n: nat, reply: Reply) {
    n < |replies| && replies[n] == reply && (reply.Served? || reply.Refused?) && Silent(replies, n)
  }

  lemma {:induction false} RequestedFrom(replies: seq<Reply>, attempt: nat, reply: Reply)
    requires 1 <= attempt <= MAX_ATTEMPTS
    ensures Requested(replies, attempt) == Answered(reply) <==>
            exists n: nat :: n + attempt <= MAX_ATTEMPTS && FirstAnswer(replies, n, reply)
    ensures Requested(replies, attempt) == Unanswered(Transport) <==>
            Silent(replies, MAX_ATTEMPTS - attempt + 1)
    decreases |replies|
  {
    if replies == [] || replies[0].Interrupted? {
    } else if !replies[0].NoAnswer? {
      assert FirstAnswer(replies, 0, replies[0]);
    } else if attempt < MAX_ATTEMPTS {
      RequestedFrom(replies[1..], attempt + 1, reply);
      forall n: nat | n + attempt + 1 <= MAX_ATTEMPTS && FirstAnswer(replies[1..], n, reply)
        ensures FirstAnswer(replies, n + 1, reply)
      {
        assert forall i :: 1 <= i < n + 1 ==> replies[i] == replies[1..][i - 1];
      }
      forall n: nat | n > 0 && FirstAnswer(replies, n, reply)
        ensures FirstAnswer(replies[1..], n - 1, reply)
      {
      }
      var left := MAX_ATTEMPTS - attempt;
      assert Silent(replies[1..], left) ==> Silent(replies, left + 1) by {
        assert forall i :: 1 <= i < |replies| ==> replies[i] == replies[1..][i - 1];
      }
    }
  }

  /** A request is made at most three times and only while nobody answers: the answer is
      the first one among three tries, and it fails as unanswered after three silences. */
  lemma RequestIsBounded(replies: seq<Reply>, reply: Reply)
    ensures Requested(replies, 1) == Answered(reply) <==>
            exists n: nat :: n + 1 <= MAX_ATTEMPTS && FirstAnswer(replies, n, reply)
    ensures Requested(replies, 1) == Unanswered(Transport) <==> Silent(replies, MAX_ATTEMPTS)
  {
    RequestedFrom(replies, 1, reply);
  }

  // ---- The copy loop

  datatype Copy = Copy(file: Option<Bytes>, error: Option<Error>)

  /** The rest of the body is copied to the file. The end of the body is reported only
      once all of it was read. */
  function Copied(file: Bytes, rest: Bytes, turns: seq<Turn>, maximum: nat, removes: bool): Copy
    decreases |turns|
  {
    if turns == [] || turns[0].Pause? then Copy(Some(file), Some(Cancelled))
    else
      var n := Least(turns[0].n, |rest|);
      var written := file + rest[..n];
      if maximum > 0 && n > 0 && |written| > maximum then
        Copy(if removes then None else Some(file), Some(TooLarge))
      else if n > 0 && turns[0].after.WriteFails? then
        Copy(Some(file + rest[..Least(turns[0].after.written, n)]), Some(Storage))
      else if turns[0].after.Broken? then Copy(Some(written), Some(Transport))
      else if turns[0].after.End? && n == |rest| then Copy(Some(written), None)
      else Copied(written, rest[n..], turns[1..], maximum, removes)
  }

  function Offset(files: Files, request: Request): nat {
    if request.resume && files.partial.Some? then |files.partial.value| else 0
  }

  /** What the file holds when the copy begins. */
  function Start(files: Files, request: Request, response: Response): Bytes {
    if request.resume && files.partial.Some? && (Offset(files, request) == 0 || response.code == 206)
    then files.partial.value
    else []
  }

  function Attempted(files: Files, request: Request, content: Bytes, a: Attempt): (Files, Outcome) {
    var answer := Requested(a.replies, 1);
    if answer.Unanswered? then (files, Failed(answer.error))
    else
      var response := Respond(content, Offset(files, request), answer.reply);
      if response.code < 200 || response.code >= 300 then (files, Failed(Status(response.code)))
      else if request.maximum > 0 && response.sized && |response.body| > request.maximum then
        (files, Failed(TooLarge))
      else if !a.opens then (files, Failed(Storage))
      else Stored(files, request, Copied(Start(files, request, response), response.body, a.turns, request.maximum, a.removes), a)
  }

  function Stored(files: Files, request: Request, copy: Copy, a: Attempt): (Files, Outcome) {
    var left := files.(partial := copy.file);
    if copy.error.Some? then (left, Failed(copy.error.value))
    else if copy.file.None? || !a.closes || !a.digests then (left, Failed(Storage))
    else if !request.accepts(copy.file.value) then (left, Failed(WrongChecksum))
    else if !a.renames then (left, Failed(Storage))
    else (Files(None, copy.file), Done)
  }

  class HttpDownloader {
    var partial: Option<Bytes>
    var destination: Option<Bytes>

    ghost function View(): Files
      reads this
    {
      Files(partial, destination)
    }

    method DoDownloadRequest(replies: seq<Reply>) returns (answer: Answer)
      ensures answer == Requested(replies, 1)
    {
      var attempt := 1;
      while true
        invariant 1 <= attempt <= MAX_ATTEMPTS && attempt - 1 <= |replies|
        invariant Requested(replies, 1) == Requested(replies[attempt - 1..], attempt)
        decreases MAX_ATTEMPTS - attempt
      {
        if attempt > |replies| || replies[attempt - 1].Interrupted? {
          return Unanswered(Cancelled);
        }
        if !replies[attempt - 1].NoAnswer? {
          return Answered(replies[attempt - 1]);
        }
        if attempt >= MAX_ATTEMPTS {
          return Unanswered(Transport);
        }
        attempt := attempt + 1;
      }
    }

    method Download(request: Request, content: Bytes, a: Attempt) returns (outcome: Outcome)
      modifies this
      ensures (View(), outcome) == Attempted(old(View()), request, content, a)
    {
      var offset, appends := 0, false;
      if request.resume && partial.Some? {
        offset, appends := |partial.value|, true;
      }
      var answer := DoDownloadRequest(a.replies);
      if answer.Unanswered? {
        return Failed(answer.error);
      }
      var response := Respond(content, offset, answer.reply);
      if response.code < 200 || response.code >= 300 {
        return Failed(Status(response.code));
      }
      if request.maximum > 0 && response.sized && |response.body| > request.maximum {
        return Failed(TooLarge);
      }
      if offset > 0 && response.code != 206 {
        offset, appends := 0, false;
      }
      if !a.opens {
        return Failed(Storage);
      }
      if !appends {
        partial := Some([]);
      }
      assert partial.value == Start(old(View()), request, response);
      var failure := CopyBody(offset, response.body, a.turns, request.maximum, a.removes);
      if failure.Some? {
        return Failed(failure.value);
      }
      if partial.None? || !a.closes || !a.digests {
        return Failed(Storage);
      }
      if !request.accepts(partial.value) {
        return Failed(WrongChecksum);
      }
      if !a.renames {
        return Failed(Storage);
      }
      partial, destination := None, partial;
      return Done;
    }

    method CopyBody(offset: nat, body: Bytes, turns: seq<Turn>, maximum: nat, removes: bool)
      returns (failure: Option<Error>)
      requires partial.Some? && |partial.value| == offset
      modifies this`partial
      ensures Copy(partial, failure) == Copied(old(partial.value), body, turns, maximum, removes)
    {
      ghost var copy := Copied(partial.value, body, turns, maximum, removes);
      var downloaded, read, i := offset, 0, 0;
      assert body[0..] == body && turns[0..] == turns;
      while true
        invariant i <= |turns| && read <= |body|
        invariant partial.Some? && downloaded == |partial.value|
        invariant copy == Copied(partial.value, body[read..], turns[i..], maximum, removes)
        decreases |turns| - i
      {
        if i == |turns| || turns[i].Pause? {
          return Some(Cancelled);
        }
        ghost var rest := body[read..];
        var n, after := Least(turns[i].n, |body| - read), turns[i].after;
        var chunk := body[read..read + n];
        assert chunk == rest[..n] && rest[n..] == body[read + n..] && turns[i..][1..] == turns[i + 1..];
        if n > 0 {
          if maximum > 0 && downloaded + n > maximum {
            if removes {
              partial := None;
            }
            return Some(TooLarge);
          }
          if after.WriteFails? {
            ghost var k := Least(after.written, n);
            assert chunk[..k] == rest[..k];
            partial := Some(partial.value + chunk[..Least(after.written, n)]);
            return Some(Storage);
          }
          partial := Some(partial.value + chunk);
          downloaded := downloaded + n;
        } else {
          assert partial.value + chunk == partial.value;
        }
        read := read + n;
        if after.End? && read == |body| {
          return None;
        }
        if after.Broken? {
          return Some(Transport);
        }
        i := i + 1;
      }
    }
  }

  // ---- One attempt

  predicate IsPrefix(files: Files, content: Bytes) {
    files.partial.Some? ==> files.partial.value <= content
  }

  lemma {:induction false} CopyKeepsPrefix(file: Bytes, rest: Bytes, turns: seq<Turn>, maximum: nat, removes: bool)
    ensures var copy := Copied(file, rest, turns, maximum, removes);
            && (copy.file.Some? ==> file <= copy.file.value <= file + rest)
            && (copy.file.None? ==> copy.error == Some(TooLarge))
            && (copy.error.None? ==> copy.file == Some(file + rest))
            && (copy.error != Some(Status(416)))
    decreases |turns|
  {
    if turns != [] && !turns[0].Pause? {
      var n := Least(turns[0].n, |rest|);
      var written := file + rest[..n];
      assert written + rest[n..] == file + rest && rest[..|rest|] == rest;
      if n > 0 && turns[0].after.WriteFails? {
        var k := Least(turns[0].after.written, n);
        assert file + rest == file + rest[..k] + rest[k..];
      }
      CopyKeepsPrefix(written, rest[n..], turns[1..], maximum, removes);
    }
  }

  /** Where a copy starts and what it appends always make up the content, whether the
      server resumed or sent everything again. */
  lemma StartAndBodyAreTheContent(files: Files, request: Request, content: Bytes, reply: Reply)
    requires reply.Served?
    requires request.resume ==> IsPrefix(files, content)
    ensures var response := Respond(content, Offset(files, request), reply);
            response.code != 416 ==> Start(files, request, response) + response.body == content
  {
    if request.resume && files.partial.Some? {
      var offset := |files.partial.value|;
      assert files.partial.value == content[..offset];
      if offset == 0 {
        assert content[..0] == [] && [] + content == content;
      }
    }
    assert [] + content == content;
  }

  /** An attempt never spoils the partial file or the destination: a prefix of the content
      stays one, and the destination changes only on success, to exactly the content. */
  lemma AttemptKeepsFiles(files: Files, request: Request, content: Bytes, a: Attempt)
    requires request.resume ==> IsPrefix(files, content)
    ensures IsPrefix(files, content) ==> IsPrefix(Attempted(files, request, content, a).0, content)
    ensures var (left, outcome) := Attempted(files, request, content, a);
            if outcome.Done? then left == Files(None, Some(content)) && request.accepts(content)
            else left.destination == files.destination
  {
    var answer := Requested(a.replies, 1);
    if answer.Answered? && answer.reply.Served? {
      var response := Respond(content, Offset(files, request), answer.reply);
      var start := Start(files, request, response);
      CopyKeepsPrefix(start, response.body, a.turns, request.maximum, a.removes);
      if response.code != 416 {
        StartAndBodyAreTheContent(files, request, content, answer.reply);
      }
    }
  }

  // ---- The limit on the size

  lemma {:induction false} CopyIsTooLargeIff(file: Bytes, rest: Bytes, turns: seq<Turn>, maximum: nat, removes: bool)
    requires Copied(file, rest, turns, 0, removes).error.None? && (rest == [] && maximum > 0 ==> |file| <= maximum)
    ensures var copy := Copied(file, rest, turns, maximum, removes);
            if maximum > 0 && |file + rest| > maximum
            then copy.error == Some(TooLarge) && (copy.file.None? <==> removes)
            else copy == Copied(file, rest, turns, 0, removes)
    decreases |turns|
  {
    var n := Least(turns[0].n, |rest|);
    var written := file + rest[..n];
    assert written + rest[n..] == file + rest && rest[..|rest|] == rest;
    if !(maximum > 0 && n > 0 && |written| > maximum) && !(turns[0].after.End? && n == |rest|) {
      if n == 0 { assert written == file && rest[n..] == rest; }
      CopyIsTooLargeIff(written, rest[n..], turns[1..], maximum, removes);
    }
  }

  /** When nothing else fails, a download ends as too large exactly if the content is larger
      than a positive maximum; otherwise the maximum changes nothing. */
  lemma TooLargeIff(files: Files, request: Request, content: Bytes, a: Attempt)
    requires request.resume ==> IsPrefix(files, content)
    requires Attempted(files, request.(maximum := 0), content, a).1.Done?
    ensures var result := Attempted(files, request, content, a);
            if request.maximum > 0 && |content| > request.maximum then result.1 == Failed(TooLarge)
            else result == Attempted(files, request.(maximum := 0), content, a)
    ensures request.maximum > 0 && |content| > request.maximum ==>
              Attempted(files, request, content, a).0.destination == files.destination
  {
    var answer := Requested(a.replies, 1);
    StartAndBodyAreTheContent(files, request, content, answer.reply);
    var response := Respond(content, Offset(files, request), answer.reply);
    var start := Start(files, request, response);
    assert start + response.body == content;
    if !(request.maximum > 0 && response.sized && |response.body| > request.maximum) {
      if response.body == [] { assert start == []; }
      CopyIsTooLargeIff(start, response.body, a.turns, request.maximum, a.removes);
    }
  }

  // ---- A logical download: attempts until one of them settles it

  datatype Result = Waiting | Settled(outcome: Outcome)

  function Logical(files: Files, request: Request, content: Bytes, attempts: seq<Attempt>): (Files, Result)
    decreases |attempts|
  {
    if attempts == [] then (files, Waiting)
    else
      var (left, outcome) := Attempted(files, request, content, attempts[0]);
      if outcome.Done? then (left, Settled(Done))
      else if attempts[0].withdrawn then (left, Settled(Failed(Cancelled)))
      else if outcome != Failed(Cancelled) then (left, Settled(outcome))
      else Logical(left, request, content, attempts[1..])
  }

  method RunDownload(d: HttpDownloader, request: Request, content: Bytes, attempts: seq<Attempt>) returns (result: Result)
    modifies d
    ensures (d.View(), result) == Logical(old(d.View()), request, content, attempts)
  {
    var i := 0;
    assert attempts[0..] == attempts;
    while i < |attempts|
      invariant i <= |attempts|
      invariant Logical(d.View(), request, content, attempts[i..]) == Logical(old(d.View()), request, content, attempts)
    {
      var outcome := d.Download(request, content, attempts[i]);
      assert attempts[i..][1..] == attempts[i + 1..];
      if outcome.Done? {
        return Settled(Done);
      }
      if attempts[i].withdrawn {
        return Settled(Failed(Cancelled));
      }
      if outcome != Failed(Cancelled) {
        return Settled(outcome);
      }
      i := i + 1;
    }
    return Waiting;
  }

  /** For any schedule of pauses, faults and retries: the partial file stays a prefix, a
      download that succeeds leaves exactly the content at the destination, one that does
      not leaves the destination alone, and only a withdrawn download ends as cancelled. */
  lemma {:induction false} LogicalDownload(files: Files, request: Request, content: Bytes, attempts: seq<Attempt>)
    requires request.resume ==> IsPrefix(files, content)
    ensures var (left, result) := Logical(files, request, content, attempts);
            && (IsPrefix(files, content) ==> IsPrefix(left, content))
            && (if result == Settled(Done) then left == Files(None, Some(content)) && request.accepts(content)
                else left.destination == files.destination)
            && (result == Settled(Failed(Cancelled)) ==> exists a :: a in attempts && a.withdrawn)
    decreases |attempts|
  {
    if attempts != [] {
      AttemptKeepsFiles(files, request, content, attempts[0]);
      assert attempts[0] in attempts;
      var (left, outcome) := Attempted(files, request, content, attempts[0]);
      if outcome == Failed(Cancelled) && !attempts[0].withdrawn {
        LogicalDownload(left, request, content, attempts[1..]);
      }
    }
  }

  // ---- When only pauses interrupt

  /** The server resumes, nothing fails and the caller stays: the attempt ends or is paused. */
  predicate OnlyPauses(a: Attempt) {
    && |a.replies| == 1 && a.replies[0].Served? && a.replies[0].ranged
    && a.opens && a.closes && a.digests && a.renames && !a.withdrawn
    && forall i :: 0 <= i < |a.turns| ==> a.turns[i].Pause? || a.turns[i].after.More? || a.turns[i].after.End?
  }

  predicate Acceptable(request: Request, content: Bytes) {
    request.maximum == 0 && request.accepts(content)
  }

  /** The partial file already holds everything: what a caller can tell from its size. */
  predicate AlreadyComplete(files: Files, request: Request, content: Bytes) {
    request.resume && content != [] && files.partial.Some? && |files.partial.value| >= |content|
  }

  lemma {:induction false} CopyEndsOrPauses(file: Bytes, rest: Bytes, turns: seq<Turn>, removes: bool)
    requires forall i :: 0 <= i < |turns| ==> turns[i].Pause? || turns[i].after.More? || turns[i].after.End?
    ensures var copy := Copied(file, rest, turns, 0, removes);
            copy.file.Some? && (copy.error == None || copy.error == Some(Cancelled))
    decreases |turns|
  {
    if turns != [] && !turns[0].Pause? {
      var n := Least(turns[0].n, |rest|);
      CopyEndsOrPauses(file + rest[..n], rest[n..], turns[1..], removes);
    }
  }

  /** An attempt that nothing but pauses disturbs is refused with status 416 exactly when
      it resumes a file that is already complete; otherwise it succeeds, or is paused
      without losing a byte. */
  lemma ResumeFailsIff(files: Files, request: Request, content: Bytes, a: Attempt)
    requires OnlyPauses(a) && Acceptable(request, content)
    requires request.resume ==> IsPrefix(files, content)
    ensures Attempted(files, request, content, a).1 == Failed(Status(416)) <==> AlreadyComplete(files, request, content)
    ensures var (left, outcome) := Attempted(files, request, content, a);
            !AlreadyComplete(files, request, content) ==>
              || outcome == Done
              || (outcome == Failed(Cancelled)
                  && left.partial.Some? && left.partial.value <= content
                  && (request.resume && files.partial.Some? ==> files.partial.value <= left.partial.value))
  {
    var response := Respond(content, Offset(files, request), a.replies[0]);
    if response.code != 416 {
      var start := Start(files, request, response);
      StartAndBodyAreTheContent(files, request, content, a.replies[0]);
      CopyKeepsPrefix(start, response.body, a.turns, 0, a.removes);
      CopyEndsOrPauses(start, response.body, a.turns, a.removes);
    }
  }

  predicate StoppedComplete(files: Files, request: Request, content: Bytes, attempts: seq<Attempt>) {
    var (left, result) := Logical(files, request, content, attempts);
    result.Waiting? && AlreadyComplete(left, request, content)
  }

  lemma {:induction false} OneAttemptFirst(files: Files, request: Request, content: Bytes, attempts: seq<Attempt>, n: nat)
    requires 0 < n <= |attempts| && !attempts[0].withdrawn
    requires Attempted(files, request, content, attempts[0]).1 == Failed(Cancelled)
    ensures Logical(files, request, content, attempts[..n])
            == Logical(Attempted(files, request, content, attempts[0]).0, request, content, attempts[1..][..n - 1])
  {
    assert attempts[..n][1..] == attempts[1..][..n - 1];
    assert attempts[..n][0] == attempts[0];
  }

  /** So pauses alone make a download fail in one way only: one of them came after the
      last byte had arrived and before the transfer was seen to end. */
  lemma {:induction false} PausesFailIff(files: Files, request: Request, content: Bytes, attempts: seq<Attempt>)
    requires forall i :: 0 <= i < |attempts| ==> OnlyPauses(attempts[i])
    requires Acceptable(request, content) && (request.resume ==> IsPrefix(files, content))
    ensures var result := Logical(files, request, content, attempts).1;
            && (result in {Waiting, Settled(Done), Settled(Failed(Status(416)))})
            && (result == Settled(Failed(Status(416))) <==>
                exists n: nat :: n < |attempts| && StoppedComplete(files, request, content, attempts[..n]))
    decreases |attempts|
  {
    if attempts != [] {
      var a := attempts[0];
      ResumeFailsIff(files, request, content, a);
      AttemptKeepsFiles(files, request, content, a);
      var (left, outcome) := Attempted(files, request, content, a);
      if AlreadyComplete(files, request, content) {
        assert StoppedComplete(files, request, content, attempts[..0]);
      } else if outcome == Done {
        forall n: nat | n < |attempts|
          ensures !StoppedComplete(files, request, content, attempts[..n])
        {
          assert n > 0 ==> attempts[..n][0] == a;
        }
      } else {
        PausesFailIff(left, request, content, attempts[1..]);
        forall n: nat | 0 < n < |attempts|
          ensures StoppedComplete(files, request, content, attempts[..n])
                  == StoppedComplete(left, request, content, attempts[1..][..n - 1])
        {
          OneAttemptFirst(files, request, content, attempts, n);
        }
        if exists n: nat :: n < |attempts[1..]| && StoppedComplete(left, request, content, attempts[1..][..n]) {
          var n: nat :| n < |attempts[1..]| && StoppedComplete(left, request, content, attempts[1..][..n]);
          var m := n + 1;
          assert attempts[1..][..m - 1] == attempts[1..][..n];
          assert StoppedComplete(files, request, content, attempts[..m]);
        }
        if exists n: nat :: n < |attempts| && StoppedComplete(files, request, content, attempts[..n]) {
          var n: nat :| n < |attempts| && StoppedComplete(files, request, content, attempts[..n]);
          assert n > 0;
          var m := n - 1;
          assert StoppedComplete(left, request, content, attempts[1..][..m]);
        }
      }
    }
  }

  /** And it can happen: a two-byte file, paused between its last byte and the end of the
      body, is refused when it is resumed. */
  lemma PausedAtTheEndExample()
    ensures var request := Request(true, 0, _ => true);
            var served := [Served(true, true)];
            var paused := Attempt(served, [Read(2, More), Pause], true, true, true, true, true, false);
            var resumed := Attempt(served, [Read(2, End)], true, true, true, true, true, false);
            && OnlyPauses(paused) && OnlyPauses(resumed)
            && Logical(Files(None, None), request, [7, 9], [resumed]) == (Files(None, Some([7, 9])), Settled(Done))
            && Logical(Files(None, None), request, [7, 9], [paused, resumed])
               == (Files(Some([7, 9]), None), Settled(Failed(Status(416))))
  {
    var request := Request(true, 0, _ => true);
    var served := [Served(true, true)];
    var content: Bytes := [7, 9];
    var paused := Attempt(served, [Read(2, More), Pause], true, true, true, true, true, false);
    var resumed := Attempt(served, [Read(2, End)], true, true, true, true, true, false);
    assert content[..2] == content && [] + content == content && content[2..] == [];
    assert Copied([], content, [Read(2, End)], 0, true) == Copy(Some(content), None);
    assert paused.turns[1..] == [Pause];
    assert Copied([], content, paused.turns, 0, true) == Copied(content, [], [Pause], 0, true);
    assert Attempted(Files(None, None), request, content, paused) == (Files(Some(content), None), Failed(Cancelled));
    assert [paused, resumed][1..] == [resumed];
  }
}
