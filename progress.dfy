/** `statusBar`: the text animation shown while the artifact downloads.
    The `done` channel is read once per tick; the model takes the answers
    as a sequence of booleans, one per tick. Timing and the concurrent
    download are not modelled. */
module Progress {

  /** The line the animation starts from: an arrow head and a carriage return. */
  const Start := ">\r"
  /** The length at which the line goes back to `Start`. */
  const Wrap := 20

  /** `k` copies of `c`. */
  function Repeat(c: char, k: nat): (r: string)
    ensures |r| == k && forall i :: 0 <= i < k ==> r[i] == c
  {
    if k == 0 then [] else [c] + Repeat(c, k - 1)
  }

  /** The line printed on tick `t`: `t mod 18` equals signs, then `Start`. */
  function Frame(t: nat): string {
    Repeat('=', t % 18) + Start
  }

  /** Every line shown is at most 17 equals signs followed by `Start`, so its
      length stays between 2 and 19. */
  lemma FrameShape(t: nat)
    ensures 2 <= |Frame(t)| < Wrap
    ensures Frame(t)[|Frame(t)| - 2..] == Start
    ensures forall i :: 0 <= i < |Frame(t)| - 2 ==> Frame(t)[i] == '='
  {
    var r := Frame(t);
    assert r[..|r| - 2] == Repeat('=', t % 18);
  }

  /** One tick of the source's update: prepend `=`, and go back to `Start`
      when the line reaches the wrap length. */
  function Advance(line: string): string {
    if |"=" + line| == Wrap then Start else "=" + line
  }

  /** Advancing the frame of tick `t` gives the frame of tick `t + 1`: one
      more `=`, or back to `Start` after 17 of them. */
  lemma NextFrame(t: nat)
    ensures Advance(Frame(t)) == Frame(t + 1)
    ensures t % 18 < 17 ==> Frame(t + 1) == "=" + Frame(t)
    ensures t % 18 == 17 ==> Frame(t + 1) == Start
  {
    if t % 18 < 17 {
      assert (t + 1) % 18 == t % 18 + 1;
      assert Repeat('=', t % 18 + 1) == "=" + Repeat('=', t % 18);
      assert Repeat('=', t % 18 + 1) + Start == "=" + (Repeat('=', t % 18) + Start);
    } else {
      assert (t + 1) % 18 == 0;
    }
  }

  /** Prints one frame per tick and stops at the first tick where `done`
      has fired; returns the frames printed and whether it stopped. */
  method StatusBar(done: seq<bool>) returns (frames: seq<string>, stopped: bool)
    ensures stopped <==> true in done
    ensures |frames| <= |done|
    ensures forall t :: 0 <= t < |frames| ==> frames[t] == Frame(t)
    ensures forall t :: 0 <= t < |frames| - 1 ==> !done[t]
    ensures stopped ==> |frames| > 0 && done[|frames| - 1]
    ensures !stopped ==> |frames| == |done|
  {
    var waitLine := Start;
    var stop := false;
    frames := [];
    var tick := 0;
    while tick < |done|
      invariant 0 <= tick <= |done|
      invariant |frames| == tick && !stop
      invariant forall t :: 0 <= t < tick ==> frames[t] == Frame(t)
      invariant forall t :: 0 <= t < tick ==> !done[t]
      invariant waitLine == Frame(tick)
    {
      frames := frames + [waitLine];
      if done[tick] {
        stop := true;
      }
      if stop {
        break;
      }
      NextFrame(tick);
      waitLine := "=" + waitLine;
      if |waitLine| == Wrap {
        waitLine := Start;
      }
      assert waitLine == Advance(Frame(tick));
      tick := tick + 1;
    }
    stopped := stop;
    assert stopped ==> done[tick] && |frames| == tick + 1;
    assert !stopped ==> tick == |done|;
  }
}
