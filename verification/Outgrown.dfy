/** A run on which static memory outgrows what init set aside for it (arch/x86/pagingx86.cpp:115-228):
    4 MiB of memory, the kernel up to 2 MiB. */
module Outgrown {
  import opened Basics
  import B = Bits
  import opened PagingModel
  import S = StaticMemory

  const BASE := 0x20_0000   // static memory starts at frame 512
  const LIMIT := 0x30_0000  // and init marks KERNEL_INIT_SIZE behind it, up to frame 767
  const FRAMES := 1024

  /** The frames that are marked after init, and after getPage gave out the free ones below t: init
      leaves those from 16 to 159, between the first 64 KiB and the video memory. */
  predicate Booked(k: nat, t: nat) {
    k < 16 || (k < t && k % 32 != 31) || 160 <= k < 768
  }

  function WordOf(t: nat, i: nat): (w: B.Word)
    ensures forall j | 0 <= j < 32 :: w[j] == Booked(32 * i + j, t)
  {
    seq(32, j requires 0 <= j < 32 => Booked(32 * i + j, t))
  }

  function Words(t: nat): (ws: seq<B.Word>)
    ensures |ws| == 32 && forall i | 0 <= i < 32 :: ws[i] == WordOf(t, i)
  {
    seq(32, i requires 0 <= i < 32 => WordOf(t, i))
  }

  lemma BitOf(t: nat, k: nat)
    requires k < FRAMES
    ensures B.IsSet(Words(t), k) <==> Booked(k, t)
  {
    assert 32 * (k / 32) + k % 32 == k;
  }

  /** The low pages are mapped to themselves. */
  function LowTable(): (t: seq<nat>)
    ensures |t| == PER_TABLE
  {
    seq(PER_TABLE, k requires 0 <= k < PER_TABLE => if Booked(k, 16) then k * PAGE + 3 else 0)
  }

  function Tables(): (t: map<nat, seq<nat>>)
    ensures forall i | i in t :: i < PER_TABLE && |t[i]| == PER_TABLE
  {
    map[0 := LowTable(), 192 := EmptyTable(), 832 := EmptyTable()]
  }

  function Bitmap(t: nat): (b: B.Bitmap) {
    B.Bitmap(Words(t), FRAMES, if t <= 16 then 0 else (t - 1) / 32)
  }

  function Low(t: nat): (g: set<nat>) {
    set k: nat | 16 <= k < t && k % 32 != 31
  }

  /** After init, and after getPage gave out the free frames below t. */
  function Stage(t: nat): (w: World)
    requires t >= 16
  {
    World(Mem(Bitmap(t), Tables(), 0x3000_0000, 0xD000_0000, BASE), map[], Low(t))
  }

  lemma StageHint(t: nat)
    requires 16 <= t <= 160
    ensures B.HintOk(Bitmap(t))
  {
    var b := Bitmap(t);
    forall k: nat | k < b.last * 32 ensures !B.Offers(b.words, k) {
      BitOf(t, k);
    }
  }

  lemma StageSound(t: nat)
    requires 16 <= t <= 160
    ensures Sound(Stage(t))
  {
    StageHint(t);
    forall f | f in Stage(t).taken ensures Marked(Stage(t).mem.bits, f) {
      BitOf(t, f);
    }
  }

  /** The search answers the first frame that is not booked. */
  lemma StageFind(t: nat, f: nat)
    requires 16 <= t <= 160 && f < FRAMES && !Booked(f, t) && f % 32 != 31
    requires forall k: nat | k < f && k % 32 != 31 :: Booked(k, t)
    ensures B.FindUnset(Bitmap(t)) == (Bitmap(t).(last := f / 32), Some(f))
  {
    StageHint(t);
    var b := Bitmap(t);
    B.HintedEqualsFull(b);
    BitOf(t, f);
    assert B.Offers(b.words, f);
    forall k: nat | k < f ensures !B.Offers(b.words, k) {
      BitOf(t, k);
    }
    B.LeastUnique(b.words, B.FindUnset(b).1, Some(f));
  }

  lemma SetBooked(t: nat)
    requires 16 <= t < 160 && t % 32 != 31
    ensures B.Set(Bitmap(t).(last := t / 32), t) == Bitmap(t + 1)
  {
    var b := B.Set(Bitmap(t).(last := t / 32), t);
    var ws := Words(t + 1);
    forall i | 0 <= i < 32 ensures b.words[i] == ws[i] {
      forall j | 0 <= j < 32 ensures b.words[i][j] == ws[i][j] {
        assert (32 * i + j == t) <==> (i == t / 32 && j == t % 32);
      }
    }
  }

  /** One getPage gives out frame t, or t is the top bit of a word and is passed over. */
  lemma StageStep(t: nat)
    requires 16 <= t < 160 && Sound(Stage(t))
    ensures (if t % 32 == 31 then Stage(t) else Step(Stage(t), FrameOp)) == Stage(t + 1)
  {
    if t % 32 == 31 {
      assert Words(t) == Words(t + 1) by {
        forall i | 0 <= i < 32 ensures WordOf(t, i) == WordOf(t + 1, i) {}
      }
      assert Low(t) == Low(t + 1);
    } else {
      StageFind(t, t);
      SetBooked(t);
      assert Low(t) + {t} == Low(t + 1);
    }
  }

  /** The calls of getPage that give out all free frames from t on, and then one more. */
  function Calls(t: nat): (ops: seq<Op>)
    decreases 160 - t
  {
    if t >= 160 then [FrameOp]
    else if t % 32 == 31 then Calls(t + 1)
    else [FrameOp] + Calls(t + 1)
  }

  /** The state then: the one more frame is the first behind what init set aside. */
  ghost function Outgrowing(): (w: World) {
    var s := Stage(160);
    World(s.mem.(bits := B.Set(Bitmap(160).(last := 24), 768)), s.filled, s.taken + {768})
  }

  lemma LastFrame()
    ensures Sound(Stage(160)) && Step(Stage(160), FrameOp) == Outgrowing()
  {
    StageSound(160);
    StageFind(160, 768);
  }

  lemma {:induction false} CallsRun(t: nat, w: World, r: World)
    requires 16 <= t <= 160 && w == Stage(t) && r == Outgrowing()
    ensures Run(w, Calls(t), r)
    decreases 160 - t
  {
    if t == 160 {
      LastFrame();
      FirstCall(w, r, [], r);
    } else {
      var q := NextStage(t, w);
      CallsRun(t + 1, q, r);
      if t % 32 != 31 { FirstCall(w, q, Calls(t + 1), r); }
    }
  }

  lemma NextStage(t: nat, w: World) returns (q: World)
    requires 16 <= t < 160 && w == Stage(t)
    ensures q == Stage(t + 1) && Sound(w) && q == if t % 32 == 31 then w else Step(w, FrameOp)
  {
    StageSound(t);
    StageStep(t);
    q := Stage(t + 1);
  }

  lemma FirstCall(w: World, q: World, ops: seq<Op>, r: World)
    requires Sound(w) && q == Step(w, FrameOp) && Run(q, ops, r)
    ensures Run(w, [FrameOp] + ops, r)
  {
    assert ([FrameOp] + ops)[1..] == ops;
  }

  /** From the state after init, in which everything up to LIMIT is set aside, calls of getPage lead to
      a state in which static memory is still apart from all frames given out; one static allocation
      of a page more than what is set aside then hands out a frame that getPage gave out. */
  lemma StaticCollides()
    ensures Sound(Stage(16)) && S.Reserved(Stage(16), BASE, LIMIT) && S.StaticMarked(Stage(16).mem, BASE)
    ensures Run(Stage(16), Calls(16), Outgrowing()) && Sound(Outgrowing())
    ensures S.StaticApart(Outgrowing(), BASE)
    ensures var op := StaticOp(LIMIT - BASE + PAGE);
      && S.OpRises(Outgrowing(), op) && !S.OpClear(Outgrowing(), op)
      && !S.StaticApart(Step(Outgrowing(), op), BASE)
  {
    var w, q := Stage(16), Outgrowing();
    StageSound(16);
    forall k: nat | BASE <= k * PAGE < LIMIT ensures Marked(w.mem.bits, k) {
      BitOf(16, k);
    }
    assert Low(16) == {};
    CallsRun(16, w, q);
    S.RunReserved(w, Calls(16), q, BASE, LIMIT);
    assert 768 in S.Given(q);
    assert S.StaticMarked(q.mem, BASE);
    S.StepApartIff(q, StaticOp(LIMIT - BASE + PAGE), BASE);
  }
}
