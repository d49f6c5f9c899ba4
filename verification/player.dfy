/**
 The player's receive path: the `onmessage` handler that strips the RTP header
 from each frame, decodes the PCMU payload into the sample buffer and hands the
 buffer to the audio output as one clip once it holds enough samples.

 The handler is a pure step from (audio enabled?, buffer, frame) to the new
 buffer and the clip it emits, if any. Samples are the decoder's integers; the
 player's division by 32768 is left out.
 */
module Player {
  import opened Ulaw

  /** Size of the fixed RTP header (section 5.1 of RFC 3550), skipped unread. */
  const RtpHeaderSize: nat := 12

  /** A clip is emitted once the buffer holds this many samples (100 ms at 8000 Hz). */
  const ClipThreshold: nat := 800

  datatype Option<T> = None | Some(value: T)

  /** The handler's effect: the buffer it leaves behind and the clip it plays, if any. */
  datatype Step = Step(pcm: seq<int>, clip: Option<seq<int>>)

  /** The samples a step plays: the clip, or nothing. */
  function Played(clip: Option<seq<int>>): seq<int>
  {
    match clip
    case Some(c) => c
    case None => []
  }

  /** The clip a step plays, as a list of zero or one clips. */
  function ClipList(clip: Option<seq<int>>): (l: seq<seq<int>>)
    ensures |l| <= 1
    ensures Concat(l) == Played(clip)
  {
    match clip
    case Some(c) => [c]
    case None => []
  }

  /** A frame too short to carry payload: it is no longer than the RTP header. */
  predicate IsShort(frame: seq<Byte>)
  {
    |frame| <= RtpHeaderSize
  }

  /** The frame's PCMU payload: everything after the RTP header. */
  function Payload(frame: seq<Byte>): (p: seq<Byte>)
    requires !IsShort(frame)
    ensures |p| == |frame| - RtpHeaderSize > 0
    ensures forall i :: 0 <= i < |p| ==> p[i] == frame[RtpHeaderSize + i]
  {
    frame[RtpHeaderSize..]
  }

  /** Each payload byte decoded, in payload order. */
  function Decoded(payload: seq<Byte>): seq<int>
  {
    seq(|payload|, i requires 0 <= i < |payload| => UlawToLinear(payload[i]))
  }

  /**
   The decode loop of the handler: every payload byte is decoded and pushed
   onto the buffer, in order, leaving the samples already there untouched.
   The result is the `pcm + Decoded(Payload(frame))` that `OnMessage` uses.
   */
  method AppendDecoded(pcm: seq<int>, payload: seq<Byte>) returns (out: seq<int>)
    ensures |out| == |pcm| + |payload|
    ensures out[..|pcm|] == pcm
    ensures forall i :: 0 <= i < |payload| ==> out[|pcm| + i] == UlawToLinear(payload[i])
    ensures out == pcm + Decoded(payload)
  {
    out := pcm;
    var i := 0;
    while i < |payload|
      invariant 0 <= i <= |payload|
      invariant |out| == |pcm| + i
      invariant out[..|pcm|] == pcm
      invariant forall j :: 0 <= j < i ==> out[|pcm| + j] == UlawToLinear(payload[j])
    {
      out := out + [UlawToLinear(payload[i])];
      i := i + 1;
    }
  }

  /** A frame that contributes samples: audio is on and the frame carries payload. */
  predicate Accepted(audioOn: bool, frame: seq<Byte>)
  {
    audioOn && !IsShort(frame)
  }

  /**
   The `onmessage` handler. A frame is dropped while audio is not enabled or when
   it has no payload; otherwise its payload is decoded onto the buffer, and a
   buffer that reaches the threshold is played whole and emptied.
   */
  function OnMessage(audioOn: bool, pcm: seq<int>, frame: seq<Byte>): (r: Step)
    ensures !Accepted(audioOn, frame) ==> r == Step(pcm, None)
    ensures Accepted(audioOn, frame) ==>
      && Played(r.clip) + r.pcm == pcm + Decoded(Payload(frame))
      && (r.clip.Some? <==> |pcm| + |frame| - RtpHeaderSize >= ClipThreshold)
    ensures r.clip.Some? ==> |r.clip.value| >= ClipThreshold && r.pcm == []
    ensures |pcm| < ClipThreshold ==> |r.pcm| < ClipThreshold
  {
    if !audioOn then
      Step(pcm, None)
    else if IsShort(frame) then
      Step(pcm, None)
    else
      var grown := pcm + Decoded(Payload(frame));
      if |grown| >= ClipThreshold then Step([], Some(grown)) else Step(grown, None)
  }

  /*
   * A session: the handler applied to a sequence of messages
   */

  /** One `message` event, with whether audio had been enabled when it arrived. */
  datatype Message = Message(audioOn: bool, frame: seq<Byte>)

  /** What a session leaves: the final buffer and the clips played, in order. */
  datatype Session = Session(pcm: seq<int>, clips: seq<seq<int>>)

  /** Concatenation of a sequence of sample blocks. */
  function Concat(blocks: seq<seq<int>>): seq<int>
  {
    if |blocks| == 0 then [] else blocks[0] + Concat(blocks[1..])
  }

  /** The samples one message contributes: its decoded payload if accepted, else none. */
  function Added(m: Message): seq<int>
  {
    if Accepted(m.audioOn, m.frame) then Decoded(Payload(m.frame)) else []
  }

  /**
   The reference for a session: the decoded payloads of the accepted frames,
   one after another in arrival order.
   */
  function Received(msgs: seq<Message>): seq<int>
  {
    if |msgs| == 0 then []
    else
      Added(msgs[0]) + Received(msgs[1..])
  }

  /**
   The handler run over `msgs` from buffer `pcm`. Started below the threshold, the
   buffer stays below it, and every clip played holds at least the threshold.
   */
  function Run(pcm: seq<int>, msgs: seq<Message>): (r: Session)
    ensures |pcm| < ClipThreshold ==> |r.pcm| < ClipThreshold
    ensures forall i :: 0 <= i < |r.clips| ==> |r.clips[i]| >= ClipThreshold
    ensures |r.clips| <= |msgs|
    decreases |msgs|
  {
    if |msgs| == 0 then Session(pcm, [])
    else
      var s := OnMessage(msgs[0].audioOn, pcm, msgs[0].frame);
      var rest := Run(s.pcm, msgs[1..]);
      Session(rest.pcm, ClipList(s.clip) + rest.clips)
  }

  lemma {:induction false} ConcatAppend(a: seq<seq<int>>, b: seq<seq<int>>)
    ensures Concat(a + b) == Concat(a) + Concat(b)
    decreases |a|
  {
    if |a| == 0 {
      assert a + b == b;
    } else {
      assert (a + b)[1..] == a[1..] + b;
      ConcatAppend(a[1..], b);
    }
  }

  /**
   Nothing is lost, duplicated or reordered: the clips played, followed by what
   is still buffered, are the starting buffer followed by every accepted frame's
   decoded payload in arrival order.
   */
  lemma {:induction false} RunPreservesOrder(pcm: seq<int>, msgs: seq<Message>)
    ensures Concat(Run(pcm, msgs).clips) + Run(pcm, msgs).pcm == pcm + Received(msgs)
    decreases |msgs|
  {
    if |msgs| == 0 {
      assert [] + pcm == pcm + [];
    } else {
      var s := OnMessage(msgs[0].audioOn, pcm, msgs[0].frame);
      var rest := Run(s.pcm, msgs[1..]);
      StepConserves(pcm, msgs[0]);
      ConcatAppend(ClipList(s.clip), rest.clips);
      RunPreservesOrder(s.pcm, msgs[1..]);
      Regroup(Played(s.clip), s.pcm, pcm, Added(msgs[0]), Concat(rest.clips), rest.pcm, Received(msgs[1..]));
    }
  }

  /** One message: what it plays, then what it leaves buffered, is the old buffer plus its samples. */
  lemma StepConserves(pcm: seq<int>, m: Message)
    ensures var s := OnMessage(m.audioOn, pcm, m.frame);
      Played(s.clip) + s.pcm == pcm + Added(m)
  {
    if !Accepted(m.audioOn, m.frame) {
      assert pcm + [] == pcm;
    }
  }

  /** Associativity step of `RunPreservesOrder`: x + s == a + b and c + p == s + t give x + c + p == a + (b + t). */
  lemma Regroup(x: seq<int>, s: seq<int>, a: seq<int>, b: seq<int>, c: seq<int>, p: seq<int>, t: seq<int>)
    requires x + s == a + b
    requires c + p == s + t
    ensures (x + c) + p == a + (b + t)
  {
    calc {
      (x + c) + p;
      x + (c + p);
      x + (s + t);
      (x + s) + t;
      (a + b) + t;
      a + (b + t);
    }
  }

  /**
   A frame of 12 header bytes and 1600 payload bytes of 0xFF, arriving at an empty
   buffer with audio on, is played as ONE clip of 1600 silent samples: the buffer
   is not cut into clips of 800.
   */
  lemma LongFrameIsOneClip()
    ensures var frame := seq(1612, _ => 0xFF as Byte);
      OnMessage(true, [], frame) == Step([], Some(seq(1600, _ => 0)))
  {
    var frame := seq(1612, _ => 0xFF as Byte);
    ZeroCodes();
    var p := Payload(frame);
    var d := Decoded(p);
    assert forall i :: 0 <= i < |d| ==> d[i] == UlawToLinear(0xFF) == 0;
    assert d == seq(1600, _ => 0);
    assert [] + d == d;
  }
}
