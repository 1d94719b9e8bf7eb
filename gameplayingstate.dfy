/** GamePlayingState: the game's playing phase. A status machine counts
    down before each ball (GetReady), runs the play field while Playing, and
    ends in Won or Lost; it also keeps statistics about the game. */
module PlayingStates {
  import opened Scalars
  import PlayFields

  datatype AnnouncementKind = Countdown | Go | Finished

  /** A message shown from frame `time` on. */
  datatype Announcement = Announcement(time: int, text: string, kind: AnnouncementKind)

  datatype Status =
    | GetReady(timeStarted: int, announcements: seq<Announcement>, lives: int)
    | Won(lives: int)
    | Lost(lives: int)
    | Playing(lives: int)

  datatype Statistics = Statistics(ballSpeedMax: real, paddleBounces: int, wallBounces: int)

  /** Kotlin's Int division, which truncates towards zero. */
  function TruncatedDivision(a: int, b: int): (q: int)
    requires b > 0
    ensures a >= 0 ==> q == a / b
    ensures a < 0 ==> q == -((-a) / b)
    ensures q * b <= a < q * b + b || a < 0
  {
    if a >= 0 then a / b else -((-a) / b)
  }

  /** The frames each announcement stays up: three quarters of a second,
      (fps / 4) * 3 in Int arithmetic. */
  function PerMessage(fps: int): (p: int)
    ensures fps >= 4 ==> p >= 3
    ensures 0 <= fps < 4 ==> p == 0
  {
    TruncatedDivision(fps, 4) * 3
  }

  /** createGetReadyStatus: "3...", "2...", "1...", "GO!" and the end of the
      countdown, PerMessage(fps) frames apart, the first one PerMessage(fps)
      frames after frameStart. */
  function CreateGetReadyStatus(fps: int, frameStart: int, lives: int): (s: Status)
    ensures s.GetReady? && s.timeStarted == frameStart && s.lives == lives
    ensures |s.announcements| == 5
    ensures forall k :: 0 <= k < 5 ==> s.announcements[k].time == frameStart + (k + 1) * PerMessage(fps)
    ensures forall k :: 0 <= k < 3 ==> s.announcements[k].kind == Countdown
    ensures s.announcements[3].kind == Go && s.announcements[4].kind == Finished
  {
    var perMessage := PerMessage(fps);
    GetReady(
      frameStart,
      [ Announcement(frameStart + perMessage, "3...", Countdown),
        Announcement(frameStart + perMessage * 2, "2...", Countdown),
        Announcement(frameStart + perMessage * 3, "1...", Countdown),
        Announcement(frameStart + perMessage * 4, "GO!", Go),
        Announcement(frameStart + perMessage * 5, "", Finished) ],
      lives)
  }

  /** The announcement on show at `frame`: the last one in the list whose
      time has come. */
  function CurrentAnnouncement(a: seq<Announcement>, frame: int): (c: Option<Announcement>)
    ensures c.Some? ==> c.value in a && c.value.time <= frame
    decreases |a|
  {
    if |a| == 0 then None
    else if a[|a| - 1].time <= frame then Some(a[|a| - 1])
    else CurrentAnnouncement(a[..|a| - 1], frame)
  }

  /** CurrentAnnouncement is None exactly when no announcement's time has
      come, and otherwise one whose time has come with no later one in the
      list whose time has come. */
  lemma {:induction false} CurrentIsLastReached(a: seq<Announcement>, frame: int)
    ensures CurrentAnnouncement(a, frame).None? <==> forall i :: 0 <= i < |a| ==> frame < a[i].time
    ensures CurrentAnnouncement(a, frame).Some? ==>
      exists i :: 0 <= i < |a| && a[i] == CurrentAnnouncement(a, frame).value && a[i].time <= frame &&
        forall j :: i < j < |a| ==> frame < a[j].time
    decreases |a|
  {
    if |a| > 0 {
      var last := |a| - 1;
      var c := CurrentAnnouncement(a, frame);
      if a[last].time > frame {
        var init := a[..last];
        assert c == CurrentAnnouncement(init, frame);
        CurrentIsLastReached(init, frame);
        assert forall i :: 0 <= i < last ==> a[i] == init[i];
        if c.Some? {
          var i :| 0 <= i < |init| && init[i] == c.value && init[i].time <= frame &&
            forall j :: i < j < |init| ==> frame < init[j].time;
          assert a[i] == c.value && forall j :: i < j < |a| ==> frame < a[j].time;
        }
      } else {
        assert a[last] == c.value;
      }
    }
  }

  /** With at least four frames a second the announcements come in order:
      nothing before the first, the countdown for three periods, "GO!" for
      one, and then the end of the countdown. */
  lemma {:induction false} GetReadyTimeline(fps: int, start: int, lives: int, frame: int)
    requires fps >= 4
    ensures var c := CurrentAnnouncement(CreateGetReadyStatus(fps, start, lives).announcements, frame);
      var p := PerMessage(fps);
      (frame < start + p ==> c.None?) &&
      (start + p <= frame < start + 4 * p ==> c.Some? && c.value.kind == Countdown) &&
      (start + 4 * p <= frame < start + 5 * p ==> c.Some? && c.value.kind == Go) &&
      (start + 5 * p <= frame ==> c.Some? && c.value.kind == Finished)
  {
    var a := CreateGetReadyStatus(fps, start, lives).announcements;
    var p := PerMessage(fps);
    assert a[..4][..3] == a[..3] && a[..3][..2] == a[..2] && a[..2][..1] == a[..1] && a[..1][..0] == [];
    assert a[..4][3] == a[3] && a[..3][2] == a[2] && a[..2][1] == a[1] && a[..1][0] == a[0];
    assert CurrentAnnouncement(a, frame) == if a[4].time <= frame then Some(a[4]) else CurrentAnnouncement(a[..4], frame);
    assert CurrentAnnouncement(a[..4], frame) == if a[3].time <= frame then Some(a[3]) else CurrentAnnouncement(a[..3], frame);
    assert CurrentAnnouncement(a[..3], frame) == if a[2].time <= frame then Some(a[2]) else CurrentAnnouncement(a[..2], frame);
    assert CurrentAnnouncement(a[..2], frame) == if a[1].time <= frame then Some(a[1]) else CurrentAnnouncement(a[..1], frame);
    assert CurrentAnnouncement(a[..1], frame) == if a[0].time <= frame then Some(a[0]) else CurrentAnnouncement([], frame);
  }

  /** The blocks.any { it.alive } of onEvent. */
  predicate AnyAlive(blocks: seq<PlayFields.Block>)
  {
    exists j :: 0 <= j < |blocks| && blocks[j].alive
  }

  /** The status after onEvent: breaking the last live block wins with the
      lives left; losing the ball on the last life loses; losing it with
      another count of lives starts a new countdown one second later with a
      life fewer (never below zero). Other events keep the status. */
  function EventStatus(s: Status, e: PlayFields.Event, anyAlive: bool, frame: int, fps: int): (r: Status)
    ensures r != s ==> e.BallFellOut? || (e.BallBrokeBlock? && !anyAlive)
    ensures e.BallBrokeBlock? && !anyAlive ==> r.Won? && r.lives == s.lives
  {
    match e
    case BallBrokeBlock(_, _, _, _) => if !anyAlive then Won(s.lives) else s
    case BallFellOut =>
      if s.lives == 1 then Lost(0)
      else CreateGetReadyStatus(fps, frame + fps, if s.lives - 1 > 0 then s.lives - 1 else 0)
    case _ => s
  }

  /** The lives never rise and never fall below zero, and a step loses at
      most one; the game is lost only by losing the ball on the last life,
      and won only by breaking a block when none is left alive. */
  lemma {:induction false} EventStatusLives(s: Status, e: PlayFields.Event, anyAlive: bool, frame: int, fps: int)
    requires s.lives >= 0
    ensures var r := EventStatus(s, e, anyAlive, frame, fps);
      0 <= r.lives <= s.lives && s.lives - 1 <= r.lives &&
      (r.Lost? && !s.Lost? ==> e.BallFellOut? && s.lives == 1 && r.lives == 0) &&
      (r.Won? && !s.Won? ==> e.BallBrokeBlock? && !anyAlive && r.lives == s.lives)
  {
    var r := EventStatus(s, e, anyAlive, frame, fps);
    if e.BallFellOut? && s.lives != 1 {
      assert r == CreateGetReadyStatus(fps, frame + fps, if s.lives - 1 > 0 then s.lives - 1 else 0);
    }
  }

  /** Losing the ball with lives to spare starts a new countdown one second
      on, with a life fewer: at four frames a second or more it announces
      GetReady one period after that and resumes play five periods after
      it, with the lives it started with. */
  lemma {:induction false} FellOutCountsDownAgain(s: Status, anyAlive: bool, frame: int, fps: int)
    requires s.lives > 1 && fps >= 4
    ensures var r := EventStatus(s, PlayFields.BallFellOut, anyAlive, frame, fps);
      var p := PerMessage(fps);
      r.GetReady? && r.lives == s.lives - 1 && r.timeStarted == frame + fps &&
      LogicEvents(r, frame + fps + p) == [PlayFields.GetReady] &&
      LogicStatus(r, frame + fps + 5 * p - 1) == r &&
      LogicStatus(r, frame + fps + 5 * p) == Playing(s.lives - 1)
  {
    var p := PerMessage(fps);
    CountdownPlaysOut(fps, frame + fps, s.lives - 1, frame + fps + p);
    CountdownPlaysOut(fps, frame + fps, s.lives - 1, frame + fps + 5 * p - 1);
    CountdownPlaysOut(fps, frame + fps, s.lives - 1, frame + fps + 5 * p);
  }

  /** The statistics after onEvent: the fastest ball seen so far after a
      block break, and the paddle and wall bounce counts. */
  function EventStatistics(st: Statistics, e: PlayFields.Event, ballSpeed: real): (r: Statistics)
    ensures r.ballSpeedMax >= st.ballSpeedMax
    ensures e.BallBrokeBlock? ==> r.ballSpeedMax >= ballSpeed
    ensures r.paddleBounces == st.paddleBounces + (if e.BallBouncedPaddle? then 1 else 0)
    ensures r.wallBounces == st.wallBounces + (if e.BallBouncedWall? then 1 else 0)
    ensures !e.BallBrokeBlock? ==> r.ballSpeedMax == st.ballSpeedMax
    ensures e.BallBrokeBlock? && ballSpeed <= st.ballSpeedMax ==> r.ballSpeedMax == st.ballSpeedMax
  {
    match e
    case BallBrokeBlock(_, _, _, _) => st.(ballSpeedMax := Max(st.ballSpeedMax, ballSpeed))
    case BallBouncedPaddle(_, _, _) => st.(paddleBounces := st.paddleBounces + 1)
    case BallBouncedWall => st.(wallBounces := st.wallBounces + 1)
    case _ => st
  }

  /** The status after onLogic: a countdown whose current announcement is
      the last one ends in Playing with the same lives; any other status is
      kept. */
  function LogicStatus(s: Status, frame: int): (r: Status)
    ensures r.lives == s.lives
    ensures !s.GetReady? ==> r == s
    ensures r != s ==> s.GetReady? && r == Playing(s.lives)
  {
    match s
    case GetReady(_, announcements, lives) =>
      var current := CurrentAnnouncement(announcements, frame);
      if current.Some? && current.value.kind == Finished then Playing(lives) else s
    case _ => s
  }

  /** The events onLogic publishes: GetReady on the frame a countdown
      announcement comes up, Go on the frame "GO!" comes up. */
  function LogicEvents(s: Status, frame: int): (es: seq<PlayFields.Event>)
    ensures |es| <= 1
    ensures es != [] ==> s.GetReady?
  {
    match s
    case GetReady(_, announcements, _) =>
      var current := CurrentAnnouncement(announcements, frame);
      if current.None? || current.value.time != frame then []
      else if current.value.kind == Countdown then [PlayFields.GetReady]
      else if current.value.kind == Go then [PlayFields.Go]
      else []
    case _ => []
  }

  /** Over a countdown started at `start` (four frames a second or more):
      GetReady is published at the first three announcement frames, Go at
      the fourth, and Playing begins from the fifth. */
  lemma {:induction false} CountdownPlaysOut(fps: int, start: int, lives: int, frame: int)
    requires fps >= 4
    ensures var s := CreateGetReadyStatus(fps, start, lives);
      var p := PerMessage(fps);
      (frame == start + p || frame == start + 2 * p || frame == start + 3 * p ==>
        LogicEvents(s, frame) == [PlayFields.GetReady] && LogicStatus(s, frame) == s) &&
      (frame == start + 4 * p ==> LogicEvents(s, frame) == [PlayFields.Go] && LogicStatus(s, frame) == s) &&
      (frame < start + 5 * p ==> LogicStatus(s, frame) == s) &&
      (start + 5 * p <= frame ==> LogicStatus(s, frame) == Playing(lives) && LogicEvents(s, frame) == [])
  {
    var s := CreateGetReadyStatus(fps, start, lives);
    var p := PerMessage(fps);
    var a := s.announcements;
    GetReadyTimeline(fps, start, lives, frame);
    var c := CurrentAnnouncement(a, frame);
    if c.Some? {
      CurrentIsLastReached(a, frame);
      var i :| 0 <= i < |a| && a[i] == c.value && a[i].time <= frame && forall j :: i < j < |a| ==> frame < a[j].time;
      assert a[0].time == start + p && a[1].time == start + 2 * p && a[2].time == start + 3 * p;
      assert a[3].time == start + 4 * p && a[4].time == start + 5 * p;
      if frame == start + p || frame == start + 2 * p || frame == start + 3 * p || frame == start + 4 * p {
        assert c.value.time == frame by {
          if i == 0 { } else if i == 1 { } else if i == 2 { } else if i == 3 { } else { }
        }
      }
    }
  }

  /** The game's playing state; publishing an event appends it to
      `published`. */
  class GamePlaying {
    const framesPerSecond: int
    const playField: PlayFields.PlayField
    var status: Status
    var statistics: Statistics
    var published: seq<PlayFields.Event>

    /** The game starts counting down at frame 10 with three lives. */
    constructor (framesPerSecond: int, playField: PlayFields.PlayField)
      ensures this.framesPerSecond == framesPerSecond && this.playField == playField
      ensures status == CreateGetReadyStatus(framesPerSecond, 10, 3)
      ensures status.GetReady? && status.timeStarted == 10 && status.lives == 3
      ensures statistics == Statistics(0.0, 0, 0) && published == []
    {
      this.framesPerSecond := framesPerSecond;
      this.playField := playField;
      status := CreateGetReadyStatus(framesPerSecond, 10, 3);
      statistics := Statistics(0.0, 0, 0);
      published := [];
    }

    /** findCurrentAnnouncement. */
    method FindCurrentAnnouncement(status: Status, frame: int) returns (current: Option<Announcement>)
      requires status.GetReady?
      ensures current == CurrentAnnouncement(status.announcements, frame)
    {
      var a := status.announcements;
      current := None;
      var i := 0;
      while i < |a|
        invariant 0 <= i <= |a|
        invariant current == CurrentAnnouncement(a[..i], frame)
      {
        if frame >= a[i].time {
          current := Some(a[i]);
        }
        assert a[..i + 1][..i] == a[..i];
        i := i + 1;
      }
      assert a[..|a|] == a;
    }

    method OnEvent(frame: int, e: PlayFields.Event)
      modifies this, playField
      ensures playField.State() == PlayFields.EventStep(old(playField.State()), e, playField.width)
      ensures status == EventStatus(old(status), e, AnyAlive(playField.blocks), frame, framesPerSecond)
      ensures statistics == EventStatistics(old(statistics), e, playField.ball.speed)
      ensures published == old(published)
      ensures old(playField.Valid()) ==> playField.Valid()
    {
      playField.OnEvent(e);
      match e {
        case BallBrokeBlock(_, _, _, _) =>
          if !AnyAlive(playField.blocks) {
            status := Won(status.lives);
          }
          statistics := statistics.(ballSpeedMax := Max(statistics.ballSpeedMax, playField.ball.speed));
        case BallBouncedPaddle(_, _, _) =>
          statistics := statistics.(paddleBounces := statistics.paddleBounces + 1);
        case BallBouncedWall =>
          statistics := statistics.(wallBounces := statistics.wallBounces + 1);
        case BallFellOut =>
          var lives := status.lives;
          if lives == 1 {
            status := Lost(0);
          } else {
            status := CreateGetReadyStatus(framesPerSecond, frame + framesPerSecond,
                                           if status.lives - 1 > 0 then status.lives - 1 else 0);
          }
        case _ =>
      }
    }

    method OnLogic(frame: int, deltaMs: real)
      requires playField.Valid()
      modifies this, playField
      ensures status == LogicStatus(old(status), frame)
      ensures published == old(published) + LogicEvents(old(status), frame)
      ensures statistics == old(statistics)
      ensures old(status).Playing? ==>
        playField.State() == PlayFields.LogicStep(old(playField.State()), deltaMs, playField.width, playField.height,
                                                  playField.playPerfectly, playField.unit, playField.sqrt)
      ensures !old(status).Playing? ==> playField.State() == old(playField.State())
      ensures playField.Valid()
    {
      match status {
        case GetReady(_, _, lives) =>
          var announcement := FindCurrentAnnouncement(status, frame);
          if announcement.None? {
            return;
          }
          match announcement.value.kind {
            case Countdown =>
              if announcement.value.time == frame {
                published := published + [PlayFields.GetReady];
                return;
              }
            case Go =>
              if announcement.value.time == frame {
                published := published + [PlayFields.Go];
                return;
              }
            case Finished =>
              status := Playing(lives);
              return;
          }
        case Playing(_) =>
          playField.OnLogic(deltaMs);
        case Won(_) =>
        case Lost(_) =>
      }
    }
  }
}
