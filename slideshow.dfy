/**
 * The main loop of main.c as a state machine. The loop's variables and the
 * static globals it shares with `handle_input` are the fields of `Show`;
 * the calls it makes into the active art module and into the screen buffer
 * are recorded as `Effect`s, in order. Time is an input: every frame is
 * given the current reading of the monotonic clock, in seconds.
 */
module Slideshow {
  import opened Cells
  import opened Registry
  import Terminal

  /** `elapsed / slide_duration` as a double; a zero duration gives no finite ratio. */
  datatype Progress = Ratio(value: real) | NotFinite

  function ProgressOf(elapsed: real, duration: int): Progress {
    if duration == 0 then NotFinite else Ratio(elapsed / duration as real)
  }

  /** A call the main loop makes, in the order it makes them. */
  datatype Effect =
    | Init(m: int, w: int, h: int)             // the module's `init` with the terminal size
    | Update(m: int, progress: Progress, elapsed: real)
    | Draw(m: int)
    | Destroy(m: int)
    | Input(m: int, key: int)                  // the module's own `handle_input`
    | ResizeBuffer(w: int, h: int)
    | ClearBuffer
    | FlushBuffer
    | Hud(timeLeft: real)                      // `draw_hud`; the text itself is not modelled
    | PollSleep                                // the 10 ms wait of a drawn sixel slide
    | FrameSleep(fps: int)                     // the `1e9 / target_fps` ns pacing wait

  /** How a frame ends: stay on the slide, leave it (`break`), or quit (`goto cleanup`). */
  datatype Outcome = Continue | NextSlide | Quit

  /** The settings the loop reads: slide duration, target frame rate, `--single`. */
  datatype Settings = Settings(duration: int, fps: int, single: bool)

  /**
   * The loop's state: the slide index, the module the slide started with,
   * the pause and HUD flags, whether a sixel slide has been drawn, when the
   * slide started and when the last frame was shown.
   */
  datatype Snapshot = Snapshot(index: int, active: int, paused: bool, hud: bool, drawn: bool,
                         slideStart: real, lastFrame: real)

  /** The module's own input handler is called first, with any key at all. */
  function InputEffects(mods: seq<ArtModule>, i: int, key: int): seq<Effect>
    requires 0 <= i < |mods|
  {
    if Forwarded(mods[i], key) then [Input(i, key)] else []
  }

  /** The re-initialisation after a resize: the buffer, then `destroy` and `init` of the same module. */
  function ReinitEffects(m: ArtModule, i: int, w: int, h: int): seq<Effect> {
    [ResizeBuffer(w, h)] + (if m.destroy then [Destroy(i)] else []) + (if m.init then [Init(i, w, h)] else [])
  }

  /**
   * The calls of a frame that gets past input handling: `update` unless
   * paused, the buffer cleared (not for sixel modules), `draw`, the HUD
   * when shown, and the buffer flushed (not for sixel modules).
   */
  function RenderEffects(m: ArtModule, i: int, cfg: Settings, paused: bool, hud: bool, elapsed: real): seq<Effect> {
    (if !paused && m.update then [Update(i, ProgressOf(elapsed, cfg.duration), elapsed)] else [])
    + (if !IsSixel(m) then [ClearBuffer] else [])
    + (if m.draw then [Draw(i)] else [])
    + (if hud then [Hud(cfg.duration as real - elapsed)] else [])
    + (if !IsSixel(m) then [FlushBuffer] else [])
  }

  /** The state after a frame, or part of one, what it did, and how it ended. */
  datatype FrameResult = FrameResult(st: Snapshot, out: seq<Effect>, outcome: Outcome)

  /** Whether the frame only polls input: a sixel slide that has been drawn. */
  predicate Polling(mods: seq<ArtModule>, st: Snapshot)
    requires 0 <= st.index < |mods|
  {
    IsSixel(mods[st.index]) && st.drawn
  }

  /**
   * `handle_input` and what the loop does with its result: quit, switch
   * to the slide it names, or carry on with the frame.
   */
  function RespondFrame(mods: seq<ArtModule>, st: Snapshot, key: int): (r: FrameResult)
    requires |mods| == Count && 0 <= st.index < Count
  {
    var i := st.index;
    var d := Dispatch(key, i, st.paused, st.hud);
    var st1 := st.(paused := d.paused, hud := d.hud);
    var inp := InputEffects(mods, i, key);
    if d.result == QuitSignal then FrameResult(st1, inp, Quit)
    else if d.result != i then FrameResult(st1.(index := d.result), inp, NextSlide)
    else FrameResult(st1, inp, Continue)
  }

  /** The resize check, then `RespondFrame`; a resize also clears `drawn`. */
  function ReactFrame(mods: seq<ArtModule>, st: Snapshot, key: int, resized: bool, w: int, h: int): (r: FrameResult)
    requires |mods| == Count && 0 <= st.index < Count
  {
    if resized then
      var a := RespondFrame(mods, st.(drawn := false), key);
      FrameResult(a.st, ReinitEffects(mods[st.index], st.index, w, h) + a.out, a.outcome)
    else RespondFrame(mods, st, key)
  }

  /** A frame of a drawn sixel slide: input only, then the short poll wait. */
  function PollFrame(mods: seq<ArtModule>, st: Snapshot, key: int): (r: FrameResult)
    requires |mods| == Count && 0 <= st.index < Count
  {
    var a := RespondFrame(mods, st, key);
    if a.outcome != Continue then a else FrameResult(a.st, a.out + [PollSleep], Continue)
  }

  /**
   * A frame of any other slide: the resize check, input, and unless the
   * key ends the frame, rendering, then either the end of the slide or
   * the pacing wait.
   */
  function LiveFrame(mods: seq<ArtModule>, cfg: Settings, st: Snapshot, key: int, resized: bool,
                     now: real, w: int, h: int): (r: FrameResult)
    requires |mods| == Count && 0 <= st.index < Count
  {
    var a := ReactFrame(mods, st, key, resized, w, h);
    if a.outcome != Continue then a
    else
      var rf := RenderFrame(mods[st.index], cfg, a.st, now);
      FrameResult(rf.st, a.out + rf.out, rf.outcome)
  }

  /** The rest of a frame that renders, with the flags `st` as the key left them. */
  function RenderFrame(m: ArtModule, cfg: Settings, st: Snapshot, now: real): (r: FrameResult)
    requires 0 <= st.index < Count
  {
    var i := st.index;
    var elapsed := now - st.slideStart;
    var out := RenderEffects(m, i, cfg, st.paused, st.hud, elapsed);
    var st2 := st.(drawn := (m.draw && IsSixel(m)) || st.drawn, lastFrame := now);
    if !cfg.single && elapsed >= cfg.duration as real then FrameResult(st2.(index := Next(i)), out, NextSlide)
    else FrameResult(st2, out + [FrameSleep(cfg.fps)], Continue)
  }

  /**
   * One iteration of the inner loop, given the key `term_get_key` returns,
   * whether the resize flag is set, the clock reading `now` and the
   * terminal size.
   */
  function Frame(mods: seq<ArtModule>, cfg: Settings, st: Snapshot, key: int, resized: bool,
                 now: real, w: int, h: int): (r: FrameResult)
    requires |mods| == Count && 0 <= st.index < Count
    ensures 0 <= r.st.index < Count
    ensures r.outcome == Continue ==> r.st.index == st.index
  {
    if Polling(mods, st) then
      PollKeepsIndex(mods, st, key);
      PollFrame(mods, st, key)
    else
      LiveKeepsIndex(mods, cfg, st, key, resized, now, w, h);
      LiveFrame(mods, cfg, st, key, resized, now, w, h)
  }

  /** The slide index stays valid through every part of a frame, and only a frame that ends the slide changes it. */
  predicate KeepsIndex(r: FrameResult, st: Snapshot) {
    0 <= r.st.index < Count && (r.outcome == Continue ==> r.st.index == st.index)
  }

  lemma RespondKeepsIndex(mods: seq<ArtModule>, st: Snapshot, key: int)
    requires |mods| == Count && 0 <= st.index < Count
    ensures KeepsIndex(RespondFrame(mods, st, key), st)
  {
    DispatchSpec(key, st.index, st.paused, st.hud);
  }

  lemma PollKeepsIndex(mods: seq<ArtModule>, st: Snapshot, key: int)
    requires |mods| == Count && 0 <= st.index < Count
    ensures KeepsIndex(PollFrame(mods, st, key), st)
  {
    RespondKeepsIndex(mods, st, key);
  }

  lemma LiveKeepsIndex(mods: seq<ArtModule>, cfg: Settings, st: Snapshot, key: int, resized: bool,
                       now: real, w: int, h: int)
    requires |mods| == Count && 0 <= st.index < Count
    ensures KeepsIndex(LiveFrame(mods, cfg, st, key, resized, now, w, h), st)
  {
    RespondKeepsIndex(mods, st, key);
    RespondKeepsIndex(mods, st.(drawn := false), key);
    NextPrevInverse(st.index);
  }

  // ---------------------------------------------------------------------
  // What a frame does
  // ---------------------------------------------------------------------

  /** Whether the frame got past input handling into update and draw. */
  predicate Rendered(mods: seq<ArtModule>, st: Snapshot, key: int)
    requires 0 <= st.index < |mods|
  {
    !Polling(mods, st) && Dispatch(key, st.index, st.paused, st.hud).result == st.index
  }

  /** Whether `out` calls some module's `update`. */
  predicate Updates(out: seq<Effect>) {
    exists e :: e in out && e.Update?
  }

  /** Rendering calls `draw` exactly when the module has one, and `update` exactly when not paused and it has one. */
  lemma RenderCalls(m: ArtModule, i: int, cfg: Settings, paused: bool, hud: bool, elapsed: real)
    ensures var out := RenderEffects(m, i, cfg, paused, hud, elapsed);
      (Draw(i) in out <==> m.draw) && (Updates(out) <==> !paused && m.update)
  {
    var out := RenderEffects(m, i, cfg, paused, hud, elapsed);
    if !paused && m.update {
      assert out[0] == Update(i, ProgressOf(elapsed, cfg.duration), elapsed);
    }
  }

  /** Before rendering, a frame only re-initialises the module and passes it the key. */
  lemma ReactCalls(mods: seq<ArtModule>, st: Snapshot, key: int, resized: bool, w: int, h: int)
    requires |mods| == Count && 0 <= st.index < Count
    ensures forall e :: e in ReactFrame(mods, st, key, resized, w, h).out ==>
      e.ResizeBuffer? || e.Destroy? || e.Init? || e.Input?
  {
  }

  /**
   * A frame that is not polling is the reaction to the key, then, when
   * the key did not end the frame, rendering and perhaps the pacing wait;
   * the flags are those the key left.
   */
  lemma LiveShape(mods: seq<ArtModule>, cfg: Settings, st: Snapshot, key: int, resized: bool,
                  now: real, w: int, h: int)
    requires |mods| == Count && 0 <= st.index < Count && !Polling(mods, st)
    ensures var r, a := Frame(mods, cfg, st, key, resized, now, w, h), ReactFrame(mods, st, key, resized, w, h);
      var out := RenderEffects(mods[st.index], st.index, cfg, a.st.paused, a.st.hud, now - st.slideStart);
      && r.st.paused == a.st.paused && r.st.hud == a.st.hud
      && (a.outcome != Continue ==> r.out == a.out)
      && (a.outcome == Continue ==> r.out == a.out + out || r.out == a.out + (out + [FrameSleep(cfg.fps)]))
      && (a.outcome == Continue <==> Dispatch(key, st.index, st.paused, st.hud).result == st.index)
  {
  }

  /** While paused, no module's `update` is called. */
  lemma PausedSkipsUpdate(mods: seq<ArtModule>, cfg: Settings, st: Snapshot, key: int, resized: bool,
                          now: real, w: int, h: int)
    requires |mods| == Count && 0 <= st.index < Count
    requires Frame(mods, cfg, st, key, resized, now, w, h).st.paused
    ensures !Updates(Frame(mods, cfg, st, key, resized, now, w, h).out)
  {
    var r := Frame(mods, cfg, st, key, resized, now, w, h);
    if Polling(mods, st) {
      assert forall e :: e in r.out ==> e.Input? || e == PollSleep;
    } else {
      var a := ReactFrame(mods, st, key, resized, w, h);
      LiveShape(mods, cfg, st, key, resized, now, w, h);
      ReactCalls(mods, st, key, resized, w, h);
      RenderCalls(mods[st.index], st.index, cfg, a.st.paused, a.st.hud, now - st.slideStart);
    }
  }

  /**
   * A frame that renders calls the module's `draw` whenever it has one,
   * paused or not, and its `update` exactly when it is not paused and has one.
   */
  lemma RenderedDraws(mods: seq<ArtModule>, cfg: Settings, st: Snapshot, key: int, resized: bool,
                      now: real, w: int, h: int)
    requires |mods| == Count && 0 <= st.index < Count && Rendered(mods, st, key)
    ensures var r := Frame(mods, cfg, st, key, resized, now, w, h);
      && (Draw(st.index) in r.out <==> mods[st.index].draw)
      && (Updates(r.out) <==> !r.st.paused && mods[st.index].update)
  {
    var a := ReactFrame(mods, st, key, resized, w, h);
    LiveShape(mods, cfg, st, key, resized, now, w, h);
    ReactCalls(mods, st, key, resized, w, h);
    RenderCalls(mods[st.index], st.index, cfg, a.st.paused, a.st.hud, now - st.slideStart);
  }

  /**
   * Outside single mode a rendered frame ends the slide exactly when the
   * slide has lasted `duration` seconds or more, and the next slide is the
   * one after, wrapping to the first.
   */
  lemma AdvancesAtDuration(mods: seq<ArtModule>, cfg: Settings, st: Snapshot, key: int, resized: bool,
                           now: real, w: int, h: int)
    requires |mods| == Count && 0 <= st.index < Count
    requires Rendered(mods, st, key) && !cfg.single
    ensures var r := Frame(mods, cfg, st, key, resized, now, w, h);
      && (r.outcome == NextSlide <==> now - st.slideStart >= cfg.duration as real)
      && (r.outcome == NextSlide ==> r.st.index == Next(st.index))
      && (r.outcome != NextSlide ==> r.outcome == Continue && r.st.index == st.index)
  {
  }

  /** In single mode a rendered frame never ends the slide, however long it has run. */
  lemma SingleModeStays(mods: seq<ArtModule>, cfg: Settings, st: Snapshot, key: int, resized: bool,
                        now: real, w: int, h: int)
    requires |mods| == Count && 0 <= st.index < Count
    requires Rendered(mods, st, key) && cfg.single
    ensures Frame(mods, cfg, st, key, resized, now, w, h).outcome == Continue
    ensures Frame(mods, cfg, st, key, resized, now, w, h).st.index == st.index
  {
  }

  /**
   * A rendered frame that is not paused passes the module's `update` the
   * time since the slide started and that time divided by the duration.
   */
  lemma UpdateProgress(mods: seq<ArtModule>, cfg: Settings, st: Snapshot, key: int, resized: bool,
                       now: real, w: int, h: int)
    requires |mods| == Count && 0 <= st.index < Count
    requires Rendered(mods, st, key) && mods[st.index].update
    requires !Dispatch(key, st.index, st.paused, st.hud).paused
    ensures Update(st.index, ProgressOf(now - st.slideStart, cfg.duration), now - st.slideStart)
            in Frame(mods, cfg, st, key, resized, now, w, h).out
  {
    var a := ReactFrame(mods, st, key, resized, w, h);
    LiveShape(mods, cfg, st, key, resized, now, w, h);
    var out := RenderEffects(mods[st.index], st.index, cfg, a.st.paused, a.st.hud, now - st.slideStart);
    assert out[0] == Update(st.index, ProgressOf(now - st.slideStart, cfg.duration), now - st.slideStart);
    var r := Frame(mods, cfg, st, key, resized, now, w, h);
    assert r.out[|a.out|] == out[0];
  }

  /**
   * `progress` is not clamped: a single-mode slide past its duration is
   * updated with a progress above 1; at twice the duration it is 2.
   */
  lemma ProgressUnclamped(mods: seq<ArtModule>, cfg: Settings, st: Snapshot, key: int, now: real, w: int, h: int)
    requires |mods| == Count && 0 <= st.index < Count
    requires Rendered(mods, st, key) && cfg.single && cfg.duration > 0 && mods[st.index].update
    requires !Dispatch(key, st.index, st.paused, st.hud).paused
    requires now - st.slideStart == 2.0 * cfg.duration as real
    ensures Update(st.index, Ratio(2.0), now - st.slideStart) in Frame(mods, cfg, st, key, false, now, w, h).out
  {
    UpdateProgress(mods, cfg, st, key, false, now, w, h);
    DivideBack(2.0, cfg.duration as real);
  }

  /**
   * A resize seen by a frame that is not polling resizes the buffer and
   * then runs `destroy` and `init` on the same module, before anything
   * else; `drawn` is reset (a sixel slide draws again), and the slide index
   * changes only if the key asks for it.
   */
  lemma ResizeReinits(mods: seq<ArtModule>, cfg: Settings, st: Snapshot, key: int, now: real, w: int, h: int)
    requires |mods| == Count && 0 <= st.index < Count
    requires !Polling(mods, st)
    ensures var r := Frame(mods, cfg, st, key, true, now, w, h);
      var pre := ReinitEffects(mods[st.index], st.index, w, h);
      && |pre| <= |r.out| && r.out[..|pre|] == pre
      && (r.st.drawn <==> Rendered(mods, st, key) && mods[st.index].draw && IsSixel(mods[st.index]))
      && (Dispatch(key, st.index, st.paused, st.hud).result == st.index && r.outcome != NextSlide ==>
            r.st.index == st.index)
  {
    var r := Frame(mods, cfg, st, key, true, now, w, h);
    var pre := ReinitEffects(mods[st.index], st.index, w, h);
    assert r.out[..|pre|] == pre;
  }

  /**
   * A drawn sixel slide only polls input: no update, draw, clear, flush or
   * re-initialisation, it never times out, and it stays drawn.
   */
  lemma PollingOnlyReadsInput(mods: seq<ArtModule>, cfg: Settings, st: Snapshot, key: int, resized: bool,
                              now: real, w: int, h: int)
    requires |mods| == Count && 0 <= st.index < Count
    requires Polling(mods, st)
    ensures var r := Frame(mods, cfg, st, key, resized, now, w, h);
      && (forall e :: e in r.out ==> e.Input? || e == PollSleep)
      && r.st.drawn
      && (r.outcome == NextSlide <==> Dispatch(key, st.index, st.paused, st.hud).result !in {st.index, QuitSignal})
  {
  }

  /** Quitting skips the `destroy` of the active module; only a resize in the same frame destroys it. */
  lemma QuitSkipsDestroy(mods: seq<ArtModule>, cfg: Settings, st: Snapshot, key: int, resized: bool,
                         now: real, w: int, h: int)
    requires |mods| == Count && 0 <= st.index < Count
    ensures var r := Frame(mods, cfg, st, key, resized, now, w, h);
      (r.outcome == Quit <==> key == 'q' as int)
      && (r.outcome == Quit && !(resized && !Polling(mods, st)) ==> forall e :: e in r.out ==> !e.Destroy?)
  {
    var r := Frame(mods, cfg, st, key, resized, now, w, h);
    var a := RespondFrame(mods, st, key);
    RespondQuits(mods, st, key);
    if Polling(mods, st) {
      assert r == PollFrame(mods, st, key);
    } else if resized {
      RespondQuits(mods, st.(drawn := false), key);
    } else {
      assert r.outcome == Quit ==> r == a;
    }
  }

  /** `RespondFrame` quits exactly for `q`, and its only calls are the module's own input handler. */
  lemma RespondQuits(mods: seq<ArtModule>, st: Snapshot, key: int)
    requires |mods| == Count && 0 <= st.index < Count
    ensures RespondFrame(mods, st, key).outcome == Quit <==> key == 'q' as int
    ensures forall e :: e in RespondFrame(mods, st, key).out ==> e.Input?
  {
    DispatchSpec(key, st.index, st.paused, st.hud);
  }

  lemma DivideBack(x: real, d: real)
    requires d != 0.0
    ensures (x * d) / d == x
  {
  }

  /** What the frames of one slide leave behind: the state, the calls, how the slide ended, the frames used and the terminal input. */
  datatype SlideResult = SlideResult(st: Snapshot, out: seq<Effect>, outcome: Outcome, used: nat,
                                     pending: seq<Byte>, resized: bool)

  /**
   * The inner loop for at most `left` frames: each frame reads one key from
   * the waiting bytes and the clock reading `clock(tick)`, the next frame
   * starts from its state, and the loop stops at the first frame that ends
   * the slide. A polling frame does not look at the resize flag.
   */
  function SlideFrames(mods: seq<ArtModule>, cfg: Settings, st: Snapshot, pending: seq<Byte>,
                       resized: bool, clock: nat -> real, tick: nat, w: int, h: int, left: nat): (r: SlideResult)
    requires |mods| == Count && 0 <= st.index < Count
    ensures 0 <= r.st.index < Count && r.used <= left
    ensures if r.outcome == Continue then r.used == left && r.st.index == st.index else 0 < r.used
    decreases left, 1
  {
    if left == 0 then SlideResult(st, [], Continue, 0, pending, resized)
    else SlideFrame(mods, cfg, st, pending, resized, clock, tick, w, h, left)
  }

  /** The first of `left` frames, then the rest of the slide if that frame does not end it. */
  function SlideFrame(mods: seq<ArtModule>, cfg: Settings, st: Snapshot, pending: seq<Byte>,
                      resized: bool, clock: nat -> real, tick: nat, w: int, h: int, left: nat): (r: SlideResult)
    requires |mods| == Count && 0 <= st.index < Count && 0 < left
    ensures 0 <= r.st.index < Count && 0 < r.used <= left
    ensures r.outcome == Continue ==> r.used == left && r.st.index == st.index
    decreases left, 0
  {
    var f := Frame(mods, cfg, st, Terminal.Decode(pending).0, resized, clock(tick), w, h);
    var still := resized && Polling(mods, st);
    if f.outcome != Continue then SlideResult(f.st, f.out, f.outcome, 1, Terminal.Decode(pending).1, still)
    else
      var r := SlideFrames(mods, cfg, f.st.(active := st.active), Terminal.Decode(pending).1, still,
                           clock, tick + 1, w, h, left - 1);
      r.(out := f.out + r.out, used := r.used + 1)
  }

  /** A first frame `f` that ends the slide is all of `SlideFrames`. */
  lemma SlideFramesLast(mods: seq<ArtModule>, cfg: Settings, st: Snapshot, pending: seq<Byte>, resized: bool,
                        clock: nat -> real, tick: nat, w: int, h: int, left: nat, f: FrameResult)
    requires |mods| == Count && 0 <= st.index < Count && 0 < left
    requires f == Frame(mods, cfg, st, Terminal.Decode(pending).0, resized, clock(tick), w, h)
    requires f.outcome != Continue
    ensures SlideFrames(mods, cfg, st, pending, resized, clock, tick, w, h, left)
         == SlideResult(f.st, f.out, f.outcome, 1, Terminal.Decode(pending).1, resized && Polling(mods, st))
  {
  }

  /**
   * After a first frame `f` that does not end the slide, `SlideFrames` goes
   * on from the state `next` it leaves, at clock position `tick2`, with
   * `left2` frames left.
   */
  lemma SlideFramesNext(mods: seq<ArtModule>, cfg: Settings, st: Snapshot, pending: seq<Byte>, resized: bool,
                        clock: nat -> real, tick: nat, w: int, h: int, left: nat, f: FrameResult,
                        next: Snapshot, rest: seq<Byte>, still: bool, tick2: nat, left2: nat)
    requires |mods| == Count && 0 <= st.index < Count && 0 < left
    requires f == Frame(mods, cfg, st, Terminal.Decode(pending).0, resized, clock(tick), w, h)
    requires f.outcome == Continue && next == f.st.(active := st.active)
    requires rest == Terminal.Decode(pending).1 && still == (resized && Polling(mods, st))
    requires tick2 == tick + 1 && left2 == left - 1
    ensures next.index == st.index
    ensures var n := SlideFrames(mods, cfg, next, rest, still, clock, tick2, w, h, left2);
      SlideFrames(mods, cfg, st, pending, resized, clock, tick, w, h, left) == n.(out := f.out + n.out, used := n.used + 1)
  {
    SlideFramesSame(mods, cfg, next, rest, still, clock, tick + 1, tick2, w, h, left - 1, left2);
  }

  /** `whole` is the calls `done` of the first `used` frames followed by the frames `r` still to come. */
  predicate SoFar(whole: SlideResult, r: SlideResult, done: seq<Effect>, used: nat) {
    whole == r.(out := done + r.out, used := r.used + used)
  }

  /** One more frame's calls `out` move from the frames to come to the calls so far. */
  lemma SoFarStep(whole: SlideResult, r: SlideResult, n: SlideResult, done: seq<Effect>, out: seq<Effect>, used: nat)
    requires SoFar(whole, r, done, used) && r == n.(out := out + n.out, used := n.used + 1)
    ensures SoFar(whole, n, done + out, used + 1)
  {
    Assoc(done, out, n.out);
  }

  /** `SlideFrames` of equal clock positions and frame counts are equal. */
  lemma SlideFramesSame(mods: seq<ArtModule>, cfg: Settings, st: Snapshot, pending: seq<Byte>, resized: bool,
                        clock: nat -> real, tick: nat, tick2: nat, w: int, h: int, left: nat, left2: nat)
    requires |mods| == Count && 0 <= st.index < Count
    requires tick == tick2 && left == left2
    ensures SlideFrames(mods, cfg, st, pending, resized, clock, tick, w, h, left)
         == SlideFrames(mods, cfg, st, pending, resized, clock, tick2, w, h, left2)
  {
  }

  // ---------------------------------------------------------------------
  // The loop's state
  // ---------------------------------------------------------------------

  /** The globals of main.c that the loop reads and writes, and the log of calls it has made. */
  class Show {
    const modules: array<ArtModule>
    const cfg: Settings
    var index: int
    var active: int
    var paused: bool
    var hud: bool
    var drawn: bool
    var slideStart: real
    var lastFrame: real
    var effects: seq<Effect>

    predicate Valid()
      reads this
    {
      modules.Length == Count && 0 <= index < Count && 0 <= active < Count
    }

    function Now(): Snapshot
      reads this
    {
      Snapshot(index, active, paused, hud, drawn, slideStart, lastFrame)
    }

    /** The registry in place, the first slide selected, neither paused nor showing the HUD. */
    constructor (mods: seq<ArtModule>, settings: Settings, now: real)
      requires |mods| == Count
      ensures Valid() && fresh(modules) && modules[..] == mods && cfg == settings
      ensures index == 0 && !paused && !hud && lastFrame == now && effects == []
    {
      modules := new ArtModule[Count](i requires 0 <= i < Count reads {} => mods[i]);
      cfg := settings;
      index, active := 0, 0;
      paused, hud, drawn := false, false, false;
      slideStart, lastFrame := now, now;
      effects := [];
    }

    /** The `--start-with` loop: the first module of that name, if any, becomes the start. */
    method StartWith(name: string)
      requires Valid()
      modifies this
      ensures Valid() && index == StartIndex(modules[..], name, old(index))
      ensures active == old(active) && paused == old(paused) && hud == old(hud) && effects == old(effects)
      ensures drawn == old(drawn) && slideStart == old(slideStart) && lastFrame == old(lastFrame)
    {
      var i := 0;
      while i < modules.Length
        invariant 0 <= i <= modules.Length && index == old(index)
        invariant FindFrom(modules[..], name, 0) == FindFrom(modules[..], name, i)
      {
        if modules[i].name == name {
          index := i;
          break;
        }
        i := i + 1;
      }
    }

    /** `shuffle_modules`: Fisher-Yates from the last slot down, the `k`-th `rand()` being `rand(k)`. */
    method Shuffle(rand: nat -> nat)
      requires Valid()
      modifies modules
      ensures modules[..] == Shuffled(old(modules[..]), rand)
      ensures multiset(modules[..]) == multiset(old(modules[..]))
    {
      ghost var s := modules[..];
      var i := modules.Length - 1;
      while i > 0
        invariant 0 <= i < modules.Length
        invariant ShuffleFrom(modules[..], rand, i) == ShuffleFrom(s, rand, modules.Length - 1)
      {
        var j := rand(modules.Length - 1 - i) % (i + 1);
        assert j == Pick(rand, modules.Length, i);
        ghost var before := modules[..];
        var temp := modules[i];
        modules[i] := modules[j];
        modules[j] := temp;
        assert modules[..] == Swap(before, i, j);
        i := i - 1;
      }
      ShuffledIsPermutation(s, rand);
    }

    /**
     * The start-up as main.c does it: every `-s` option is looked up while
     * the options are parsed, in registry order, and `-r` shuffles the
     * registry afterwards, so the start index may no longer name the module
     * asked for (`Registry.StartBeforeShuffleMisses`).
     */
    method StartupAsWritten(starts: seq<string>, randomize: bool, rand: nat -> nat)
      requires Valid()
      modifies this, modules
      ensures Valid() && index == StartAfter(old(modules[..]), starts, old(index))
      ensures modules[..] == if randomize then Shuffled(old(modules[..]), rand) else old(modules[..])
      ensures active == old(active) && paused == old(paused) && hud == old(hud) && effects == old(effects)
    {
      for k := 0 to |starts|
        invariant Valid() && modules[..] == old(modules[..])
        invariant index == StartAfter(old(modules[..]), starts[..k], old(index))
        invariant active == old(active) && paused == old(paused) && hud == old(hud) && effects == old(effects)
      {
        assert starts[..k + 1][..k] == starts[..k];
        StartWith(starts[k]);
      }
      assert starts[..|starts|] == starts;
      if randomize {
        Shuffle(rand);
      }
    }

    /**
     * The start-up with the shuffle first: the `-s` options are looked up in
     * the order the slides will be shown, so the slideshow starts on the
     * module the last `-s` option that names one asks for.
     */
    method Startup(starts: seq<string>, randomize: bool, rand: nat -> nat)
      requires Valid()
      modifies this, modules
      ensures Valid()
      ensures modules[..] == if randomize then Shuffled(old(modules[..]), rand) else old(modules[..])
      ensures index == StartAfter(modules[..], starts, old(index))
      ensures starts != [] && FindFrom(modules[..], starts[|starts| - 1], 0).Some? ==>
        modules[index].name == starts[|starts| - 1]
      ensures active == old(active) && paused == old(paused) && hud == old(hud) && effects == old(effects)
    {
      if randomize {
        Shuffle(rand);
      }
      ghost var shown := modules[..];
      for k := 0 to |starts|
        invariant Valid() && modules[..] == shown
        invariant index == StartAfter(shown, starts[..k], old(index))
        invariant active == old(active) && paused == old(paused) && hud == old(hud) && effects == old(effects)
      {
        assert starts[..k + 1][..k] == starts[..k];
        StartWith(starts[k]);
      }
      assert starts[..|starts|] == starts;
      StartAfterFinds(shown, starts, old(index));
    }

    /**
     * `handle_input`: read one key, pass it to the active module's own
     * handler when there is a key and a handler, then dispatch it.
     */
    method HandleInput(term: Terminal.Input) returns (r: int)
      requires Valid()
      modifies this, term
      ensures Valid()
      ensures var key := Terminal.Decode(old(term.pending)).0;
        var d := Dispatch(key, old(index), old(paused), old(hud));
        && r == d.result && paused == d.paused && hud == d.hud
        && effects == old(effects) + InputEffects(modules[..], old(index), key)
      ensures term.pending == Terminal.Decode(old(term.pending)).1 && term.resized == old(term.resized)
      ensures index == old(index) && active == old(active) && drawn == old(drawn)
      ensures slideStart == old(slideStart) && lastFrame == old(lastFrame)
    {
      var c := term.GetKey();
      if c != Terminal.NoKey {
        if modules[index].input {
          effects := effects + [Input(index, c)];
        }
      }
      if c == 'q' as int {
        return QuitSignal;
      } else if c == 'p' as int {
        paused := !paused;
      } else if c == 'i' as int {
        hud := !hud;
      } else if c == 'n' as int || c == Terminal.KeyRight {
        return (index + 1) % Count;
      } else if c == 'b' as int || c == Terminal.KeyLeft {
        return (index - 1 + Count) % Count;
      }
      return index;
    }

    /** The top of the outer loop: the slide's module is initialised and its start time taken. */
    method Enter(now: real, w: int, h: int)
      requires Valid()
      modifies this
      ensures Valid() && active == index && !drawn && slideStart == now
      ensures effects == old(effects) + (if modules[index].init then [Init(index, w, h)] else [])
      ensures index == old(index) && paused == old(paused) && hud == old(hud) && lastFrame == old(lastFrame)
    {
      active := index;
      drawn := false;
      if modules[index].init {
        effects := effects + [Init(index, w, h)];
      }
      slideStart := now;
    }

    /** The resize branch of the inner loop: resize the buffer, then `destroy` and `init` the module again. */
    method Reinit(w: int, h: int)
      requires Valid()
      modifies this
      ensures Valid() && effects == old(effects) + ReinitEffects(modules[index], index, w, h) && !drawn
      ensures index == old(index) && active == old(active) && paused == old(paused) && hud == old(hud)
      ensures slideStart == old(slideStart) && lastFrame == old(lastFrame)
    {
      var m := modules[index];
      effects := effects + [ResizeBuffer(w, h)];
      if m.destroy {
        effects := effects + [Destroy(index)];
      }
      if m.init {
        effects := effects + [Init(index, w, h)];
      }
      drawn := false;
    }

    /** Update, clear, draw, HUD and flush, as one rendered frame does them. */
    method Render(elapsed: real)
      requires Valid()
      modifies this
      ensures Valid()
      ensures effects == old(effects) + RenderEffects(modules[index], index, cfg, paused, hud, elapsed)
      ensures drawn == ((modules[index].draw && IsSixel(modules[index])) || old(drawn))
      ensures index == old(index) && active == old(active) && paused == old(paused) && hud == old(hud)
      ensures slideStart == old(slideStart) && lastFrame == old(lastFrame)
    {
      var m := modules[index];
      var sixel := IsSixel(m);
      var upd, clr, drw, info, fl := [], [], [], [], [];
      if !paused {
        if m.update {
          upd := [Update(index, ProgressOf(elapsed, cfg.duration), elapsed)];
        }
      }
      if !sixel {
        clr := [ClearBuffer];
      }
      if m.draw {
        drw := [Draw(index)];
        if sixel {
          drawn := true;
        }
      }
      if hud {
        info := [Hud(cfg.duration as real - elapsed)];
      }
      if !sixel {
        fl := [FlushBuffer];
      }
      effects := effects + (upd + clr + drw + info + fl);
    }

    /** Rendering and the end-of-frame decision, once the key has not ended the frame. */
    method Finish(now: real) returns (outcome: Outcome)
      requires Valid()
      modifies this
      ensures Valid() && active == old(active)
      ensures var f := RenderFrame(modules[old(index)], cfg, old(Now()), now);
        Now() == f.st.(active := active) && effects == old(effects) + f.out && outcome == f.outcome
    {
      var elapsed := now - slideStart;
      Render(elapsed);
      lastFrame := now;
      if !cfg.single && elapsed >= cfg.duration as real {
        index := (index + 1) % Count;
        return NextSlide;
      }
      effects := effects + [FrameSleep(cfg.fps)];
      return Continue;
    }

    /** `handle_input`, then quit, switch slides, or carry on, as its result says. */
    method Respond(term: Terminal.Input) returns (outcome: Outcome)
      requires Valid()
      modifies this, term
      ensures Valid() && active == old(active)
      ensures var f := RespondFrame(modules[..], old(Now()), Terminal.Decode(old(term.pending)).0);
        Now() == f.st.(active := active) && effects == old(effects) + f.out && outcome == f.outcome
      ensures term.pending == Terminal.Decode(old(term.pending)).1 && term.resized == old(term.resized)
    {
      var r := HandleInput(term);
      if r == QuitSignal {
        return Quit;
      }
      if r != index {
        index := r;
        return NextSlide;
      }
      return Continue;
    }

    /** The resize check, then `Respond`. */
    method React(term: Terminal.Input, w: int, h: int) returns (outcome: Outcome)
      requires Valid()
      modifies this, term
      ensures Valid() && active == old(active)
      ensures var f := ReactFrame(modules[..], old(Now()), Terminal.Decode(old(term.pending)).0, old(term.resized), w, h);
        Now() == f.st.(active := active) && effects == old(effects) + f.out && outcome == f.outcome
      ensures term.pending == Terminal.Decode(old(term.pending)).1 && !term.resized
    {
      var resized := term.HasResized();
      if resized {
        Reinit(w, h);
      }
      ghost var mid := effects;
      outcome := Respond(term);
      Assoc(old(effects), effects[|old(effects)|..|mid|], effects[|mid|..]);
    }

    /** A frame of a drawn sixel slide: `Respond`, then the short wait. */
    method Poll(term: Terminal.Input) returns (outcome: Outcome)
      requires Valid()
      modifies this, term
      ensures Valid() && active == old(active)
      ensures var f := PollFrame(modules[..], old(Now()), Terminal.Decode(old(term.pending)).0);
        Now() == f.st.(active := active) && effects == old(effects) + f.out && outcome == f.outcome
      ensures term.pending == Terminal.Decode(old(term.pending)).1 && term.resized == old(term.resized)
    {
      outcome := Respond(term);
      if outcome == Continue {
        effects := effects + [PollSleep];
      }
    }

    /** A frame of any other slide: `React`, then `Finish` unless the key ended the frame. */
    method Live(term: Terminal.Input, now: real, w: int, h: int) returns (outcome: Outcome)
      requires Valid()
      modifies this, term
      ensures Valid() && active == old(active)
      ensures var f := LiveFrame(modules[..], cfg, old(Now()), Terminal.Decode(old(term.pending)).0,
                                 old(term.resized), now, w, h);
        Now() == f.st.(active := active) && effects == old(effects) + f.out && outcome == f.outcome
      ensures term.pending == Terminal.Decode(old(term.pending)).1 && !term.resized
    {
      outcome := React(term, w, h);
      if outcome == Continue {
        ghost var mid := effects;
        outcome := Finish(now);
        Assoc(old(effects), mid[|old(effects)|..], effects[|mid|..]);
      }
    }

    /** One pass of the inner loop; `Frame` says what it does. */
    method Step(term: Terminal.Input, now: real, w: int, h: int) returns (outcome: Outcome)
      requires Valid() && active == index
      modifies this, term
      ensures Valid() && active == old(active)
      ensures var f := Frame(modules[..], cfg, old(Now()), Terminal.Decode(old(term.pending)).0,
                             old(term.resized), now, w, h);
        Now() == f.st.(active := active) && effects == old(effects) + f.out && outcome == f.outcome
      ensures outcome == Continue ==> index == old(index)
      ensures term.pending == Terminal.Decode(old(term.pending)).1
      ensures term.resized == (old(term.resized) && old(Polling(modules[..], Now())))
    {
      ghost var polling := Polling(modules[..], Now());
      assert polling == (IsSixel(modules[index]) && drawn);
      if IsSixel(modules[index]) && drawn {
        outcome := Poll(term);
      } else {
        outcome := Live(term, now, w, h);
      }
    }

    /** The bottom of the outer loop: the module the slide started with is destroyed. */
    method Leave()
      requires Valid()
      modifies this
      ensures Valid()
      ensures effects == old(effects) + (if modules[old(active)].destroy then [Destroy(old(active))] else [])
      ensures index == old(index) && active == old(active) && paused == old(paused) && hud == old(hud)
      ensures drawn == old(drawn) && slideStart == old(slideStart) && lastFrame == old(lastFrame)
    {
      if modules[active].destroy {
        effects := effects + [Destroy(active)];
      }
    }

    /** The frames of one slide, as `SlideFrames` says: steps until the slide ends or `left` frames are used up. */
    method Slide(term: Terminal.Input, clock: nat -> real, tick: nat, w: int, h: int, left: nat)
      returns (outcome: Outcome, used: nat)
      requires Valid() && active == index
      modifies this, term
      ensures Valid() && active == old(active)
      ensures var r := SlideFrames(modules[..], cfg, old(Now()), old(term.pending), old(term.resized),
                                   clock, tick, w, h, left);
        Now() == r.st.(active := active) && effects == old(effects) + r.out
        && outcome == r.outcome && used == r.used && term.pending == r.pending && term.resized == r.resized
    {
      outcome, used := Continue, 0;
      var now := tick;
      ghost var done: seq<Effect> := [];
      ghost var more := left;
      ghost var whole := SlideFrames(modules[..], cfg, Now(), term.pending, term.resized, clock, now, w, h, more);
      while used < left
        invariant Valid() && active == index == old(active) && outcome == Continue
        invariant used <= left && now == tick + used && more == left - used
        invariant effects == old(effects) + done
        invariant SoFar(whole, SlideFrames(modules[..], cfg, Now(), term.pending, term.resized, clock, now, w, h, more),
                        done, used)
        decreases more
      {
        ghost var st, pending, resized, prior, mods := Now(), term.pending, term.resized, done, modules[..];
        ghost var f := Frame(mods, cfg, st, Terminal.Decode(pending).0, resized, clock(now), w, h);
        outcome := Step(term, clock(now), w, h);
        assert modules[..] == mods;
        Assoc(old(effects), prior, f.out);
        if outcome != Continue {
          SlideFramesLast(mods, cfg, st, pending, resized, clock, now, w, h, more, f);
          done, used := done + f.out, used + 1;
          return;
        }
        ghost var used0, now0, more0 := used, now, more;
        done, used, now, more := done + f.out, used + 1, now + 1, more - 1;
        SlideFramesNext(mods, cfg, st, pending, resized, clock, now0, w, h, more0, f,
                        Now(), term.pending, term.resized, now, more);
        SoFarStep(whole, SlideFrames(mods, cfg, st, pending, resized, clock, now0, w, h, more0),
                  SlideFrames(mods, cfg, Now(), term.pending, term.resized, clock, now, w, h, more), prior, f.out, used0);
      }
    }

    /**
     * The two nested loops for at most `budget` frames, the `k`-th clock
     * reading being `clock(k)`. Returns true when the user quit; the
     * active module is then left without its `destroy`.
     */
    method Run(term: Terminal.Input, clock: nat -> real, w: int, h: int, budget: nat) returns (quit: bool)
      requires Valid()
      modifies this, term
      ensures Valid()
      ensures |old(effects)| <= |effects| && effects[..|old(effects)|] == old(effects)
    {
      var frames, tick := 0, 0;
      while true
        invariant Valid() && frames <= budget
        invariant |old(effects)| <= |effects| && effects[..|old(effects)|] == old(effects)
        decreases budget - frames
      {
        Enter(clock(tick), w, h);
        var outcome, used := Slide(term, clock, tick + 1, w, h, budget - frames);
        tick, frames := tick + 1 + used, frames + used;
        if outcome == Continue {
          return false;
        }
        if outcome == Quit {
          return true;
        }
        Leave();
      }
    }
  }
}
