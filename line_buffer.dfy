/**
 * The line-buffering behaviour of LogStreamBuf as pure functions.
 *
 * Characters other than CR and LF are appended to the buffered message; a CR or LF
 * hands the buffered message to the logger at the priority in effect at that moment
 * and restarts the buffer empty.  Whether a terminator that finds the buffer empty
 * still sends an (empty) line is decided by the stream buffer's implementation file;
 * the model keeps that choice as a parameter, EmptyLinePolicy.
 */
module LineBuffer {
  import opened Message

  predicate IsTerminator(c: char) {
    c == '\r' || c == '\n'
  }

  predicate TerminatorFree(s: string) {
    forall i | 0 <= i < |s| :: !IsTerminator(s[i])
  }

  predicate AllTerminatorFree(lines: seq<string>) {
    forall k | 0 <= k < |lines| :: TerminatorFree(lines[k])
  }

  predicate AllTerminators(ts: string) {
    forall k | 0 <= k < |ts| :: IsTerminator(ts[k])
  }

  /** What a terminator does when the buffer is empty: send an empty line, or send nothing. */
  datatype EmptyLinePolicy = SendEmpty | DropEmpty

  predicate Sends(policy: EmptyLinePolicy, text: string) {
    policy == SendEmpty || text != []
  }

  /** The buffered message after some writes, and the lines those writes sent to the logger. */
  datatype Outcome = Outcome(message: string, sent: seq<Line>)

  /** One writeToDevice call on buffered message m at priority p. */
  function WriteChar(policy: EmptyLinePolicy, p: Priority, m: string, c: char): Outcome {
    if IsTerminator(c) then
      Outcome([], if Sends(policy, m) then [Line(p, m)] else [])
    else
      Outcome(m + [c], [])
  }

  /** Writing s character by character, priority p throughout. */
  function WriteString(policy: EmptyLinePolicy, p: Priority, m: string, s: string): Outcome
    decreases |s|
  {
    if s == [] then Outcome(m, [])
    else
      var before := WriteString(policy, p, m, s[..|s| - 1]);
      var last := WriteChar(policy, p, before.message, s[|s| - 1]);
      Outcome(last.message, before.sent + last.sent)
  }

  // ---------------------------------------------------------------------------
  // Reference definition: a text cut at its terminators

  /** The completed lines of a text, in order, and the unterminated text after the last terminator. */
  datatype Lines = Lines(complete: seq<string>, pending: string)

  /** The terminators of s, in order. */
  function Terminators(s: string): (ts: string)
    ensures AllTerminators(ts)
    ensures |ts| <= |s|
    decreases |s|
  {
    if s == [] then []
    else Terminators(s[..|s| - 1]) + (if IsTerminator(s[|s| - 1]) then [s[|s| - 1]] else [])
  }

  /** Cuts s at every CR and LF: one completed line per terminator, none containing a terminator. */
  function Split(s: string): (r: Lines)
    ensures |r.complete| == |Terminators(s)|
    decreases |s|
  {
    if s == [] then Lines([], [])
    else
      var before := Split(s[..|s| - 1]);
      var c := s[|s| - 1];
      if IsTerminator(c) then Lines(before.complete + [before.pending], [])
      else Lines(before.complete, before.pending + [c])
  }

  /** The inverse of Split: each line followed by its terminator. */
  function Joined(lines: seq<string>, ts: string): string
    requires |lines| == |ts|
    decreases |lines|
  {
    if lines == [] then []
    else
      var n := |lines| - 1;
      Joined(lines[..n], ts[..n]) + lines[n] + [ts[n]]
  }

  /** The lines a policy lets through to the logger, in order. */
  function Kept(policy: EmptyLinePolicy, lines: seq<string>): (r: seq<string>)
    ensures policy == SendEmpty ==> r == lines
    ensures forall k | 0 <= k < |r| :: Sends(policy, r[k])
    ensures |r| <= |lines|
    decreases |lines|
  {
    if lines == [] then []
    else
      var n := |lines| - 1;
      Kept(policy, lines[..n]) + (if Sends(policy, lines[n]) then [lines[n]] else [])
  }

  /** Kept drops no line the policy sends, and lets through nothing but lines of the input. */
  lemma {:induction false} KeptIsFilter(policy: EmptyLinePolicy, lines: seq<string>)
    ensures forall k | 0 <= k < |Kept(policy, lines)| :: Kept(policy, lines)[k] in lines
    ensures forall k | 0 <= k < |lines| :: Sends(policy, lines[k]) ==> lines[k] in Kept(policy, lines)
    decreases |lines|
  {
    if lines != [] {
      var n := |lines| - 1;
      var init := lines[..n];
      KeptIsFilter(policy, init);
      KeptSnoc(policy, init, lines[n]);
      assert init + [lines[n]] == lines;
      var r := Kept(policy, lines);
      forall k | 0 <= k < |r| ensures r[k] in lines {
        if k < |Kept(policy, init)| {
          assert r[k] == Kept(policy, init)[k];
        }
      }
      forall k | 0 <= k < |lines| && Sends(policy, lines[k]) ensures lines[k] in r {
        if k < n {
          assert lines[k] == init[k];
        }
      }
    }
  }

  /** Kept filters piecewise: the lines of a + b that are let through are those of a, then those of b. */
  lemma {:induction false} KeptAppend(policy: EmptyLinePolicy, a: seq<string>, b: seq<string>)
    ensures Kept(policy, a + b) == Kept(policy, a) + Kept(policy, b)
    decreases |b|
  {
    if b == [] {
      assert a + b == a;
    } else {
      var n := |b| - 1;
      KeptAppend(policy, a, b[..n]);
      AppendLast(a, b);
      KeptSnoc(policy, a + b[..n], b[n]);
      KeptSnoc(policy, b[..n], b[n]);
      InitLast(b);
    }
  }

  /** Every line the policy sends is kept exactly as often as it occurs; no other line is kept. */
  lemma {:induction false} KeptCount(policy: EmptyLinePolicy, lines: seq<string>, x: string)
    ensures multiset(Kept(policy, lines))[x] == if Sends(policy, x) then multiset(lines)[x] else 0
    decreases |lines|
  {
    if lines != [] {
      var n := |lines| - 1;
      KeptCount(policy, lines[..n], x);
      KeptSnoc(policy, lines[..n], lines[n]);
      InitLast(lines);
      assert multiset(lines) == multiset(lines[..n]) + multiset{lines[n]};
    }
  }

  /** Every line tagged with priority p. */
  function Tagged(p: Priority, lines: seq<string>): seq<Line>
    decreases |lines|
  {
    if lines == [] then []
    else Tagged(p, lines[..|lines| - 1]) + [Line(p, lines[|lines| - 1])]
  }

  // ---------------------------------------------------------------------------
  // Lemmas

  // Unfolding steps: each recursive definition, with its last element split off.

  lemma SplitSnoc(s: string, c: char)
    ensures Split(s + [c]) == if IsTerminator(c) then Lines(Split(s).complete + [Split(s).pending], [])
                              else Lines(Split(s).complete, Split(s).pending + [c])
  {
    assert (s + [c])[..|s|] == s;
  }

  lemma TerminatorsSnoc(s: string, c: char)
    ensures Terminators(s + [c]) == Terminators(s) + if IsTerminator(c) then [c] else []
  {
    assert (s + [c])[..|s|] == s;
  }

  lemma WriteStringSnoc(policy: EmptyLinePolicy, p: Priority, m: string, s: string, c: char)
    ensures WriteString(policy, p, m, s + [c])
         == var before := WriteString(policy, p, m, s);
            var last := WriteChar(policy, p, before.message, c);
            Outcome(last.message, before.sent + last.sent)
  {
    assert (s + [c])[..|s|] == s;
  }

  lemma JoinedSnoc(lines: seq<string>, ts: string, line: string, t: char)
    requires |lines| == |ts|
    ensures Joined(lines + [line], ts + [t]) == Joined(lines, ts) + line + [t]
  {
    assert (lines + [line])[..|lines|] == lines;
    assert (ts + [t])[..|ts|] == ts;
  }

  lemma KeptSnoc(policy: EmptyLinePolicy, lines: seq<string>, line: string)
    ensures Kept(policy, lines + [line]) == Kept(policy, lines) + if Sends(policy, line) then [line] else []
  {
    assert (lines + [line])[..|lines|] == lines;
  }

  lemma TaggedSnoc(p: Priority, lines: seq<string>, line: string)
    ensures Tagged(p, lines + [line]) == Tagged(p, lines) + [Line(p, line)]
  {
    assert (lines + [line])[..|lines|] == lines;
  }

  /** Sequence bookkeeping, kept out of the proofs about Split. */
  lemma InitLast<T>(r: seq<T>)
    requires r != []
    ensures r[..|r| - 1] + [r[|r| - 1]] == r
  {
  }

  lemma AppendLast<T>(x: seq<T>, r: seq<T>)
    requires r != []
    ensures x + r[..|r| - 1] + [r[|r| - 1]] == x + r
  {
    InitLast(r);
  }

  lemma {:induction false} SplitTerminatorFree(s: string)
    requires TerminatorFree(s)
    ensures Split(s) == Lines([], s)
    decreases |s|
  {
    if s != [] {
      var n := |s| - 1;
      SplitTerminatorFree(s[..n]);
      SplitSnoc(s[..n], s[n]);
      InitLast(s);
    }
  }

  /** Text without terminators only lengthens the pending part. */
  lemma {:induction false} SplitAppendFree(x: string, r: string)
    requires TerminatorFree(r)
    ensures Split(x + r).complete == Split(x).complete
    ensures Split(x + r).pending == Split(x).pending + r
    decreases |r|
  {
    if r == [] {
      assert x + r == x;
    } else {
      var n := |r| - 1;
      var init, c := r[..n], r[n];
      assert !IsTerminator(c);
      assert TerminatorFree(init) by {
        forall i | 0 <= i < |init| ensures !IsTerminator(init[i]) {
          assert init[i] == r[i];
        }
      }
      SplitAppendFree(x, init);
      SplitSnoc(x + init, c);
      AppendLast(x, r);
      AppendLast(Split(x).pending, r);
    }
  }

  lemma {:induction false} SplitJoinedLines(lines: seq<string>, ts: string)
    requires |lines| == |ts| && AllTerminatorFree(lines) && AllTerminators(ts)
    ensures Split(Joined(lines, ts)) == Lines(lines, [])
    decreases |lines|
  {
    if lines != [] {
      var n := |lines| - 1;
      assert AllTerminatorFree(lines[..n]);
      SplitJoinedLines(lines[..n], ts[..n]);
      var j := Joined(lines[..n], ts[..n]);
      assert TerminatorFree(lines[n]);
      SplitAppendFree(j, lines[n]);
      assert Split(j).pending + lines[n] == lines[n];
      assert IsTerminator(ts[n]);
      SplitSnoc(j + lines[n], ts[n]);
      assert Joined(lines, ts) == j + lines[n] + [ts[n]];
      InitLast(lines);
    }
  }

  /** No completed line and no pending text contains CR or LF. */
  lemma {:induction false} SplitIsClean(s: string)
    ensures AllTerminatorFree(Split(s).complete) && TerminatorFree(Split(s).pending)
    decreases |s|
  {
    if s != [] {
      var n := |s| - 1;
      SplitIsClean(s[..n]);
      SplitSnoc(s[..n], s[n]);
      InitLast(s);
    }
  }

  /** Round trip: cutting joined lines gives the lines back. */
  lemma {:induction false} SplitJoined(lines: seq<string>, ts: string, pending: string)
    requires |lines| == |ts| && AllTerminatorFree(lines) && AllTerminators(ts)
    requires TerminatorFree(pending)
    ensures Split(Joined(lines, ts) + pending) == Lines(lines, pending)
  {
    var j := Joined(lines, ts);
    SplitJoinedLines(lines, ts);
    SplitAppendFree(j, pending);
    assert Split(j).pending + pending == pending;
  }

  /** Round trip: the completed lines, their terminators and the pending text make up the whole text. */
  lemma {:induction false} JoinedSplit(s: string)
    ensures Joined(Split(s).complete, Terminators(s)) + Split(s).pending == s
    decreases |s|
  {
    if s != [] {
      var n := |s| - 1;
      var c := s[n];
      InitLast(s);
      JoinedSplit(s[..n]);
      SplitSnoc(s[..n], c);
      TerminatorsSnoc(s[..n], c);
      var before := Split(s[..n]);
      var ts := Terminators(s[..n]);
      if IsTerminator(c) {
        JoinedSnoc(before.complete, ts, before.pending, c);
      } else {
        assert ts + [] == ts;
      }
    }
  }

  /**
   * Writing s after buffered text m (which holds no terminator) sends, at priority p, the completed
   * lines of m + s that the policy lets through, and leaves the text after the last terminator
   * buffered.
   */
  lemma {:induction false} WriteStringIsSplit(policy: EmptyLinePolicy, p: Priority, m: string, s: string)
    requires TerminatorFree(m)
    ensures WriteString(policy, p, m, s)
         == Outcome(Split(m + s).pending, Tagged(p, Kept(policy, Split(m + s).complete)))
    decreases |s|
  {
    if s == [] {
      assert m + s == m;
      SplitTerminatorFree(m);
    } else {
      var n := |s| - 1;
      var c := s[n];
      InitLast(s);
      AppendLast(m, s);
      WriteStringIsSplit(policy, p, m, s[..n]);
      WriteStringSnoc(policy, p, m, s[..n], c);
      SplitSnoc(m + s[..n], c);
      var before := Split(m + s[..n]);
      if IsTerminator(c) {
        KeptSnoc(policy, before.complete, before.pending);
        if Sends(policy, before.pending) {
          TaggedSnoc(p, Kept(policy, before.complete), before.pending);
        } else {
          assert Kept(policy, before.complete) + [] == Kept(policy, before.complete);
        }
      }
    }
  }

  /** Every line sent carries the priority of the write and holds no CR or LF. */
  lemma {:induction false} SentLinesAreClean(policy: EmptyLinePolicy, p: Priority, m: string, s: string)
    requires TerminatorFree(m)
    ensures TerminatorFree(WriteString(policy, p, m, s).message)
    ensures forall k | 0 <= k < |WriteString(policy, p, m, s).sent| ::
              WriteString(policy, p, m, s).sent[k].priority == p
              && TerminatorFree(WriteString(policy, p, m, s).sent[k].text)
  {
    WriteStringIsSplit(policy, p, m, s);
    SplitIsClean(m + s);
    var lines := Split(m + s).complete;
    var kept := Kept(policy, lines);
    KeptIsFilter(policy, lines);
    TaggedAt(p, kept);
    forall k | 0 <= k < |kept| ensures TerminatorFree(kept[k]) {
      var j :| 0 <= j < |lines| && lines[j] == kept[k];
    }
  }

  lemma {:induction false} TaggedAt(p: Priority, lines: seq<string>)
    ensures |Tagged(p, lines)| == |lines|
    ensures forall k | 0 <= k < |lines| :: Tagged(p, lines)[k] == Line(p, lines[k])
    decreases |lines|
  {
    if lines != [] {
      TaggedAt(p, lines[..|lines| - 1]);
    }
  }

  /** Text without terminators is only buffered: nothing is sent, so the priority it was written at plays no part. */
  lemma {:induction false} BufferingSendsNothing(policy: EmptyLinePolicy, p: Priority, m: string, s: string)
    requires TerminatorFree(s)
    ensures WriteString(policy, p, m, s) == Outcome(m + s, [])
    decreases |s|
  {
    if s == [] {
      assert m + s == m;
    } else {
      var n := |s| - 1;
      BufferingSendsNothing(policy, p, m, s[..n]);
      AppendLast(m, s);
    }
  }

  /**
   * A line is sent with the priority in effect when its terminator arrives, not the one in effect
   * when its characters were buffered.
   */
  lemma {:induction false} TerminatorPriorityGoverns(policy: EmptyLinePolicy, p1: Priority, p2: Priority, m: string, s: string, t: char)
    requires TerminatorFree(s) && IsTerminator(t)
    ensures WriteString(policy, p1, m, s).sent == []
    ensures WriteString(policy, p2, WriteString(policy, p1, m, s).message, [t])
         == Outcome([], if Sends(policy, m + s) then [Line(p2, m + s)] else [])
  {
    BufferingSendsNothing(policy, p1, m, s);
    assert [t][..0] == [];
  }

  /**
   * CR followed by LF: the buffered line is sent once; the LF finds the buffer empty, so it sends
   * an empty line under SendEmpty and nothing under DropEmpty.
   */
  lemma CarriageReturnLineFeed(policy: EmptyLinePolicy, p: Priority, m: string)
    ensures WriteString(policy, p, m, "\r\n")
         == Outcome([], (if Sends(policy, m) then [Line(p, m)] else [])
                        + (if policy == SendEmpty then [Line(p, [])] else []))
  {
    assert "\r\n"[..1] == "\r";
    assert "\r"[..0] == [];
  }

  /** Writing s1 and then s2 is writing s1 + s2. */
  lemma {:induction false} WriteStringAppend(policy: EmptyLinePolicy, p: Priority, m: string, s1: string, s2: string)
    ensures WriteString(policy, p, m, s1 + s2)
         == var o1 := WriteString(policy, p, m, s1);
            var o2 := WriteString(policy, p, o1.message, s2);
            Outcome(o2.message, o1.sent + o2.sent)
    decreases |s2|
  {
    if s2 == [] {
      assert s1 + s2 == s1;
    } else {
      var n := |s2| - 1;
      WriteStringAppend(policy, p, m, s1, s2[..n]);
      assert (s1 + s2)[..|s1 + s2| - 1] == s1 + s2[..n];
    }
  }
}
