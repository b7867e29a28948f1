/** The frame schedule of `main`: the images are resized, the requested
    number of morphing steps is split evenly over the consecutive image
    pairs, and an endless loop walks every pair `i` and every sub-step
    `n = 0 .. s` inclusive, asking `morphing` for the blend of images `i` and
    `i + 1` with weights [1 - n/s, n/s], until the key read after a frame is
    ESC. */
module Schedule {
  import opened Wrappers
  import opened Images
  import opened Blending
  import Resizing

  /** The key code `cv2.waitKey` reports for ESC. */
  const ESC := 27

  /** Python's floor division `a // b`. Dafny's `/` keeps the remainder
      non-negative, which is floor division only for a positive divisor. */
  function FloorDiv(a: int, b: int): (q: int)
    requires b != 0
    ensures b > 0 ==> b * q <= a < b * q + b
    ensures b < 0 ==> b * q + b < a <= b * q
  {
    if b > 0 || a % b == 0 then a / b else a / b - 1
  }

  /** `n_interpolacoes`: the steps given to each pair of consecutive images.
      With two or more images it is positive exactly when every pair gets at
      least one step, zero exactly when `0 <= n_morphing < count - 1`, and
      negative exactly when `n_morphing < 0`; with no images it is
      `n_morphing // -1`, that is `-n_morphing`. */
  function StepsPerPair(nMorphing: int, count: nat): (s: int)
    requires count != 1
    ensures count == 0 ==> s == -nMorphing
    ensures count >= 2 ==> (count - 1) * s <= nMorphing < (count - 1) * (s + 1)
    ensures count >= 2 ==> (s >= 1 <==> nMorphing >= count - 1)
    ensures count >= 2 ==> (s == 0 <==> 0 <= nMorphing < count - 1)
    ensures count >= 2 ==> (s < 0 <==> nMorphing < 0)
  {
    var s := FloorDiv(nMorphing, count - 1);
    SignOfQuotient(nMorphing, count - 1, s);
    s
  }

  /** The sign of a floor quotient by a positive divisor `d`. */
  lemma SignOfQuotient(a: int, d: int, q: int)
    requires d > 0 ==> d * q <= a < d * q + d
    ensures d > 0 ==> (q >= 1 <==> a >= d) && (q == 0 <==> 0 <= a < d) && (q < 0 <==> a < 0)
  {
    if d > 0 {
      if q >= 1 { MulMono(d, 1, q); }
      if q <= -1 { MulMono(d, q + 1, 0); }
    }
  }

  /** `d * x <= d * y` for `x <= y` and a non-negative `d`. */
  lemma MulMono(d: int, x: int, y: int)
    requires d >= 0 && x <= y
    ensures d * x <= d * y && x * d <= y * d
  {
    assert d * y - d * x == d * (y - x);
  }

  /** Why `main` stops with an exception before it shows a frame. */
  datatype ScheduleError =
    | NoPairs     // `n_morphing // (len(imagens) - 1)` with one image: ZeroDivisionError
    | NoSteps     // `n / n_interpolacoes` with no steps per pair: ZeroDivisionError
    | KeyUnbound  // `key == 27` tested before any frame assigned `key`: UnboundLocalError

  /** The exception `main` raises for a number of images and a requested
      step count, or None when the schedule runs. */
  function ConfigError(count: nat, nMorphing: int): (e: Option<ScheduleError>)
    ensures e.None? <==> count >= 2 && nMorphing >= count - 1
    ensures e == Some(NoPairs) <==> count == 1
    ensures e == Some(NoSteps) <==> count >= 2 && 0 <= nMorphing < count - 1
    ensures e == Some(KeyUnbound) <==> count == 0 || (count >= 2 && nMorphing < 0)
  {
    if count == 1 then Some(NoPairs)
    else if count == 0 then Some(KeyUnbound)
    else
      var s := StepsPerPair(nMorphing, count);
      if s < 0 then Some(KeyUnbound)
      else if s == 0 then Some(NoSteps)
      else None
  }

  /** `alpha = n / n_interpolacoes`. */
  function Alpha(n: int, s: int): (alpha: real)
    requires s != 0
    ensures 0 <= n <= s ==> 0.0 <= alpha <= 1.0
    ensures n == 0 ==> alpha == 0.0
    ensures n == s ==> alpha == 1.0
  {
    n as real / s as real
  }

  /** Consecutive sub-steps are spaced 1/s apart, so alpha rises strictly
      and evenly from 0 to 1 over one pair. */
  lemma AlphaSpacing(n: int, s: int)
    requires s > 0
    ensures Alpha(n + 1, s) - Alpha(n, s) == 1.0 / s as real
    ensures Alpha(n, s) < Alpha(n + 1, s)
  {
    assert (n + 1) as real / s as real == n as real / s as real + 1.0 / s as real;
  }

  /** The weights `[1 - alpha, alpha]` handed to `morphing`. */
  function Weights(n: int, s: int): (w: seq<real>)
    requires s > 0 && 0 <= n <= s
    ensures |w| == 2 && w[0] + w[1] == 1.0
    ensures 0.0 <= w[0] <= 1.0 && 0.0 <= w[1] <= 1.0
    ensures n == 0 ==> w == [1.0, 0.0]
    ensures n == s ==> w == [0.0, 1.0]
  {
    var alpha := Alpha(n, s);
    [1.0 - alpha, alpha]
  }

  /** A point of the schedule: image pair `pair` (images `pair` and
      `pair + 1`), sub-step `step`. */
  datatype Frame = Frame(pair: nat, step: nat)

  /** Frames in one pass over all pairs. */
  function Period(count: nat, s: nat): (p: nat)
    requires count >= 2
    ensures p >= s + 1
  {
    MulMono(s + 1, 1, count - 1);
    (count - 1) * (s + 1)
  }

  /** The frame the nested loops reach after `f`: the next sub-step, else the
      first sub-step of the next pair, else the start of the next pass. */
  function Next(count: nat, s: nat, f: Frame): (g: Frame)
    requires count >= 2
    ensures f.pair < count - 1 && f.step <= s ==> g.pair < count - 1 && g.step <= s
  {
    if f.step < s then Frame(f.pair, f.step + 1)
    else if f.pair + 1 < count - 1 then Frame(f.pair + 1, 0)
    else Frame(0, 0)
  }

  /** The frame shown `t` frames after the start, counting across passes:
      the loops start at pair 0, sub-step 0 and advance by `Next`. */
  function FrameAt(count: nat, s: nat, t: nat): (f: Frame)
    requires count >= 2
    ensures f.pair < count - 1 && f.step <= s
    decreases t
  {
    if t == 0 then Frame(0, 0) else Next(count, s, FrameAt(count, s, t - 1))
  }

  /** Closed form of the schedule: frame `t` is pair `u / (s + 1)`, sub-step
      `u % (s + 1)`, where `u` is `t` modulo the length of a pass. */
  lemma {:induction false} FrameAtFormula(count: nat, s: nat, t: nat)
    requires count >= 2
    ensures var u := t % Period(count, s);
      FrameAt(count, s, t) == Frame(u / (s + 1), u % (s + 1))
    decreases t
  {
    var p := Period(count, s);
    var d := s + 1;
    if t == 0 {
      DivModOf(0, 0, 0, p);
      DivModOf(0, 0, 0, d);
    } else {
      FrameAtFormula(count, s, t - 1);
      var u := (t - 1) % p;
      Successor(t - 1, p);
      if u + 1 < p {
        Successor(u, d);
        DivBelow(u + 1, d, count - 1);
      } else {
        assert p == (count - 2) * d + d;
        DivModOf(u, count - 2, s, d);
        DivModOf(0, 0, 0, d);
      }
    }
  }

  /** Division by `d` of `x = q * d + r` with `0 <= r < d` gives back `q` and `r`. */
  lemma DivModOf(x: int, q: int, r: int, d: int)
    requires 0 <= r < d && x == q * d + r
    ensures x / d == q && x % d == r
  {
    var k := x / d - q;
    assert d * k == r - x % d;
    if k > 0 {
      MulMono(d, 1, k);
    } else if k < 0 {
      MulMono(d, k, -1);
    }
  }

  /** Below `m * d`, the quotient by `d` is below `m`. */
  lemma DivBelow(u: nat, d: nat, m: nat)
    requires d > 0 && u < m * d
    ensures u / d < m
  {
    if u / d >= m {
      MulMono(d, m, u / d);
    }
  }

  /** A position inside the first pass is its own remainder: it splits into
      pair `t / (s + 1)` and sub-step `t % (s + 1)`. */
  lemma WithinPass(count: nat, s: nat, t: nat)
    requires count >= 2 && t < Period(count, s)
    ensures FrameAt(count, s, t) == Frame(t / (s + 1), t % (s + 1))
  {
    DivModOf(t, 0, t, Period(count, s));
    FrameAtFormula(count, s, t);
  }

  /** Sub-step `n` of pair `i` is frame `i * (s + 1) + n` of every pass. */
  lemma FrameAtIndex(count: nat, s: nat, i: nat, n: nat)
    requires count >= 2 && i < count - 1 && n <= s
    ensures i * (s + 1) + n < Period(count, s)
    ensures FrameAt(count, s, i * (s + 1) + n) == Frame(i, n)
  {
    var d := s + 1;
    var t := i * d + n;
    IndexInPass(count, s, i, n);
    assert t < Period(count, s) && t / d == i && t % d == n;
    WithinPass(count, s, t);
    assert FrameAt(count, s, t) == Frame(t / d, t % d);
  }

  /** The arithmetic of `FrameAtIndex`: `i * (s + 1) + n` lies in the first
      pass and divides back into `i` and `n`. */
  lemma IndexInPass(count: nat, s: nat, i: nat, n: nat)
    requires count >= 2 && i < count - 1 && n <= s
    ensures i * (s + 1) + n < Period(count, s)
    ensures (i * (s + 1) + n) / (s + 1) == i && (i * (s + 1) + n) % (s + 1) == n
  {
    var d := s + 1;
    MulMono(d, i + 1, count - 1);
    assert d * (i + 1) == i * d + d;
    DivModOf(i * d + n, i, n, d);
  }

  /** Within one pass the frames come in strictly increasing order: by pair,
      and by sub-step within a pair. */
  lemma PassOrder(count: nat, s: nat, t1: nat, t2: nat)
    requires count >= 2 && t1 < t2 < Period(count, s)
    ensures var f1, f2 := FrameAt(count, s, t1), FrameAt(count, s, t2);
      f1.pair < f2.pair || (f1.pair == f2.pair && f1.step < f2.step)
  {
    WithinPass(count, s, t1);
    WithinPass(count, s, t2);
    QuotientOrder(t1, t2, s + 1);
  }

  /** Splitting `t1 < t2` by a divisor `d` orders the quotients, and the
      remainders when the quotients agree. */
  lemma QuotientOrder(t1: nat, t2: nat, d: nat)
    requires t1 < t2 && d > 0
    ensures t1 / d < t2 / d || (t1 / d == t2 / d && t1 % d < t2 % d)
  {
    var q1, q2 := t1 / d, t2 / d;
    if q1 > q2 {
      MulMono(d, q2 + 1, q1);
    }
  }

  /** After one whole pass the schedule repeats. */
  lemma FrameAtPeriodic(count: nat, s: nat, t: nat)
    requires count >= 2
    ensures FrameAt(count, s, t + Period(count, s)) == FrameAt(count, s, t)
  {
    var p := Period(count, s);
    DivModOf(t + p, t / p + 1, t % p, p);
    FrameAtFormula(count, s, t + p);
    FrameAtFormula(count, s, t);
  }

  /** Every pass starts at pair 0, sub-step 0. */
  lemma PassStart(count: nat, s: nat, j: nat)
    requires count >= 2
    ensures FrameAt(count, s, j * Period(count, s)) == Frame(0, 0)
  {
    var p := Period(count, s);
    DivModOf(j * p, j, 0, p);
    DivModOf(0, 0, 0, s + 1);
    FrameAtFormula(count, s, j * p);
  }

  /** Every pass ends at the last pair's last sub-step, alpha = 1. */
  lemma PassEnd(count: nat, s: nat, j: nat)
    requires count >= 2
    ensures FrameAt(count, s, j * Period(count, s) + Period(count, s) - 1) == Frame(count - 2, s)
  {
    var p := Period(count, s);
    DivModOf(j * p + p - 1, j, p - 1, p);
    DivModOf(p - 1, count - 2, s, s + 1);
    FrameAtFormula(count, s, j * p + p - 1);
  }

  /** Quotient and remainder of `x + 1` from those of `x`. */
  lemma Successor(x: nat, d: nat)
    requires d > 0
    ensures x % d + 1 < d ==> (x + 1) / d == x / d && (x + 1) % d == x % d + 1
    ensures x % d + 1 == d ==> (x + 1) / d == x / d + 1 && (x + 1) % d == 0
  {
    if x % d + 1 < d {
      DivModOf(x + 1, x / d, x % d + 1, d);
    } else {
      DivModOf(x + 1, x / d + 1, 0, d);
    }
  }

  /** Of the `n_morphing` requested steps, the pairs share `s` each; the
      remainder modulo the number of pairs is dropped. A pass therefore has
      at most `n_morphing + (count - 1)` frames, and exactly that many only
      when the number of pairs divides `n_morphing`. */
  lemma StepsDropped(count: nat, nMorphing: int)
    requires count >= 2 && nMorphing >= count - 1
    ensures var s := StepsPerPair(nMorphing, count);
      && (count - 1) * s == nMorphing - nMorphing % (count - 1)
      && Period(count, s) == nMorphing - nMorphing % (count - 1) + (count - 1)
      && Period(count, s) <= nMorphing + (count - 1)
      && (Period(count, s) == nMorphing + (count - 1) <==> nMorphing % (count - 1) == 0)
  {
    var s := StepsPerPair(nMorphing, count);
    assert s == nMorphing / (count - 1);
    assert Period(count, s) == (count - 1) * s + (count - 1);
  }

  /** Two images and four requested steps: alphas 0, 0.25, 0.5, 0.75, 1,
      then the schedule starts over. */
  lemma TwoImagesFourSteps()
    ensures StepsPerPair(4, 2) == 4 && Period(2, 4) == 5
    ensures Weights(FrameAt(2, 4, 0).step, 4) == [1.0, 0.0]
    ensures Weights(FrameAt(2, 4, 1).step, 4) == [0.75, 0.25]
    ensures Weights(FrameAt(2, 4, 2).step, 4) == [0.5, 0.5]
    ensures Weights(FrameAt(2, 4, 3).step, 4) == [0.25, 0.75]
    ensures Weights(FrameAt(2, 4, 4).step, 4) == [0.0, 1.0]
    ensures FrameAt(2, 4, 5) == Frame(0, 0)
  {
  }

  /** The arguments of one `morphing` call: the two images and their weights. */
  datatype Call = Call(images: seq<Grid<Pixel>>, weights: seq<real>)

  /** The `morphing` call made for frame `t`. */
  function CallAt(imgs: seq<Grid<Pixel>>, s: nat, t: nat): Call
    requires |imgs| >= 2 && s >= 1
  {
    var f := FrameAt(|imgs|, s, t);
    Call([imgs[f.pair], imgs[f.pair + 1]], Weights(f.step, s))
  }

  /** Every scheduled blend is a convex combination of two images, so on
      equal-size buffers it stays inside the 8-bit range. */
  lemma ScheduledMixInRange(imgs: seq<Grid<Pixel>>, s: nat, t: nat, a: seq<Pixel>, b: seq<Pixel>, p: nat)
    requires |imgs| >= 2 && s >= 1
    requires |a| == |b| && p < |a|
    ensures InRange(Mix([a, b], CallAt(imgs, s, t).weights, 2, p), 0.0, 255.0)
  {
    var f := FrameAt(|imgs|, s, t);
    var w := Weights(f.step, s);
    assert CallAt(imgs, s, t).weights == w;
    assert Sum(w, 1) == w[0];
    assert Sum(w, 2) == w[0] + w[1];
    MixInByteRange([a, b], w, p);
  }

  /** The last frame of pair `i` and the first frame of pair `i + 1` both
      show image `i + 1` unblended, so every inner image is shown twice in a
      row. */
  lemma PairJoin(a: seq<Pixel>, b: seq<Pixel>, c: seq<Pixel>, s: nat, p: nat)
    requires s >= 1 && |a| == |b| == |c| && p < |b|
    ensures Mix([a, b], Weights(s, s), 2, p) == Mix([b, c], Weights(0, s), 2, p)
    ensures Mix([a, b], Weights(s, s), 2, p) == Widen(b[p])
  {
    MixSecond(a, b, p);
    MixFirst(b, c, p);
  }

  /** Over the schedule: the last frame of pair `i` and the first frame of
      pair `i + 1` both call `morphing` on image `i + 1` with all the weight
      on it, so on equal-length buffers the two frames blend to the same
      image: every inner image is shown twice in a row. */
  lemma ShownTwice(imgs: seq<Grid<Pixel>>, s: nat, i: nat, a: seq<Pixel>, b: seq<Pixel>, c: seq<Pixel>, p: nat)
    requires s >= 1 && i + 2 < |imgs|
    requires |a| == |b| == |c| && p < |b|
    ensures var last, first := CallAt(imgs, s, i * (s + 1) + s), CallAt(imgs, s, i * (s + 1) + s + 1);
      && last.images == [imgs[i], imgs[i + 1]] && last.weights == [0.0, 1.0]
      && first.images == [imgs[i + 1], imgs[i + 2]] && first.weights == [1.0, 0.0]
      && Mix([a, b], last.weights, 2, p) == Mix([b, c], first.weights, 2, p)
      && Mix([a, b], last.weights, 2, p) == Widen(b[p])
  {
    var count := |imgs|;
    FrameAtIndex(count, s, i, s);
    FrameAtIndex(count, s, i + 1, 0);
    assert (i + 1) * (s + 1) + 0 == i * (s + 1) + s + 1;
    PairJoin(a, b, c, s, p);
  }

  /** The `morphing` call recorded for frame `t` cannot fail when every
      image converts to a Lab image of the target size: the blend and the
      reshape succeed, and each cell moves along the straight line from the
      pair's first image to its second by the frame's alpha. */
  lemma ScheduledMorph(imgs: seq<Grid<Pixel>>, s: nat, t: nat, toLab: Grid<Pixel> -> Grid<Pixel>,
                       size: Size, y: nat, x: nat)
    requires |imgs| >= 2 && s >= 1
    requires forall j :: 0 <= j < |imgs| ==> HasShape(toLab(imgs[j]), size.width, size.height)
    requires y < size.height && x < size.width
    ensures var call := CallAt(imgs, s, t);
      var labs := LabImages(call.images, toLab);
      var bufs := LabBuffers(labs);
      && |call.weights| == 2 && call.weights[0] == 1.0 - call.weights[1]
      && Blendable(bufs, call.weights)
      && |bufs[0]| == size.width * size.height
      && |labs| == 2 && HasShape(labs[0], size.width, size.height) && HasShape(labs[1], size.width, size.height)
      && Unflatten(MixAll(bufs, call.weights), size.width, size.height)[y][x]
         == Lerp(labs[0][y][x], labs[1][y][x], call.weights[1])
  {
    var f := FrameAt(|imgs|, s, t);
    var alpha := Alpha(f.step, s);
    assert CallAt(imgs, s, t) == Call([imgs[f.pair], imgs[f.pair + 1]], [1.0 - alpha, alpha]);
    var la, lb := toLab(imgs[f.pair]), toLab(imgs[f.pair + 1]);
    assert LabImages([imgs[f.pair], imgs[f.pair + 1]], toLab) == [la, lb];
    MorphedPairPixel(la, lb, alpha, size, y, x);
  }

  /** The position of the first ESC among the keys read. */
  function FirstEsc(keys: seq<int>): (e: nat)
    requires ESC in keys
    ensures e < |keys| && keys[e] == ESC
    ensures forall j :: 0 <= j < e ==> keys[j] != ESC
  {
    if keys[0] == ESC then 0 else 1 + FirstEsc(keys[1..])
  }

  /** What the loops hold after showing frames: the calls made so far and
      the last key read (`None` while `key` is still unbound). */
  datatype Shown = Shown(calls: seq<Call>, key: Option<int>)

  /** Lines 62-74: frames `0..s` of pair `i`, each blended with weights
      `[1 - n / s, n / s]`, shown, and followed by one key read; ESC ends the
      pair early. `calls` and `key` are the state the earlier pairs left. */
  method ShowPair(imgs: seq<Grid<Pixel>>, s: int, i: nat, keys: seq<int>, calls: seq<Call>, key: Option<int>)
    returns (r: Result<Shown, ScheduleError>)
    requires |imgs| >= 2 && i < |imgs| - 1
    requires s >= 1 ==> ESC in keys
    requires key.None? <==> calls == []
    requires key.Some? ==> key.value != ESC
    requires calls != [] ==> s >= 1
    requires s >= 1 ==> |calls| <= FirstEsc(keys)
    requires s >= 1 ==> FrameAt(|imgs|, s, |calls|) == Frame(i, 0)
    requires s >= 1 ==> forall t :: 0 <= t < |calls| ==> calls[t] == CallAt(imgs, s, t)
    ensures r.Failure? <==> s == 0
    ensures r.Failure? ==> r.error == NoSteps
    ensures r.Success? ==> var c, k := r.value.calls, r.value.key;
      && calls <= c
      && (k.None? <==> c == [])
      && (s < 0 ==> c == calls && k == key)
      && (s >= 1 ==> |calls| < |c| <= FirstEsc(keys) + 1 && k == Some(keys[|c| - 1]))
      && (s >= 1 ==> forall t :: 0 <= t < |c| ==> c[t] == CallAt(imgs, s, t))
      && (k == Some(ESC) ==> s >= 1 && |c| == FirstEsc(keys) + 1)
      && (k.Some? && k.value != ESC ==>
            s >= 1 && |c| <= FirstEsc(keys) &&
            |c| == |calls| + s + 1 && FrameAt(|imgs|, s, |c|) == Next(|imgs|, s, Frame(i, s)))
  {
    var c, k := calls, key;
    var n := 0;
    while n < s + 1
      invariant 0 <= n && (s >= 0 ==> n <= s + 1)
      invariant calls <= c && |c| == |calls| + n
      invariant c != [] ==> s >= 1
      invariant s >= 1 ==> |c| <= FirstEsc(keys)
      invariant k.None? <==> c == []
      invariant n == 0 ==> k == key
      invariant n > 0 ==> k == Some(keys[|c| - 1])
      invariant k.Some? ==> k.value != ESC
      invariant s >= 1 ==> FrameAt(|imgs|, s, |c|) == if n <= s then Frame(i, n) else Next(|imgs|, s, Frame(i, s))
      invariant s >= 1 ==> forall t :: 0 <= t < |c| ==> c[t] == CallAt(imgs, s, t)
    {
      if s == 0 {
        return Failure(NoSteps);
      }
      var alpha := Alpha(n, s);
      var call := Call([imgs[i], imgs[i + 1]], [1.0 - alpha, alpha]);
      assert call == CallAt(imgs, s, |c|);
      CallsSnoc(imgs, s, c, call);
      c := c + [call];
      k := Some(keys[|c| - 1]);
      if k.value == ESC {
        break;
      }
      n := n + 1;
    }
    return Success(Shown(c, k));
  }

  /** The calls of frames `0 .. |c| - 1`, followed by the call of frame
      `|c|`, are the calls of frames `0 .. |c|`. */
  lemma CallsSnoc(imgs: seq<Grid<Pixel>>, s: nat, c: seq<Call>, call: Call)
    requires |imgs| >= 2 && s >= 1
    requires forall t :: 0 <= t < |c| ==> c[t] == CallAt(imgs, s, t)
    requires call == CallAt(imgs, s, |c|)
    ensures forall t :: 0 <= t < |c| + 1 ==> (c + [call])[t] == CallAt(imgs, s, t)
  {
    forall t | 0 <= t < |c| + 1 ensures (c + [call])[t] == CallAt(imgs, s, t) {
      if t < |c| {
        assert (c + [call])[t] == c[t];
      }
    }
  }

  /** `main(imagens, tamanho, n_morphing)`: resize, then run the endless
      pass loop. `keys[t]` is the key `cv2.waitKey` reports after frame `t`;
      the result lists the `morphing` calls made, one per frame shown. */
  method Run(images: seq<Grid<Pixel>>, size: Size, nMorphing: int, keys: seq<int>,
             resize: (Grid<Pixel>, Size) -> Grid<Pixel>)
    returns (r: Result<seq<Call>, ScheduleError>)
    requires ESC in keys || ConfigError(|images|, nMorphing).Some?
    ensures r.Success? <==> ConfigError(|images|, nMorphing).None?
    ensures r.Failure? ==> ConfigError(|images|, nMorphing) == Some(r.error)
    ensures r.Success? ==> ESC in keys && |r.value| == FirstEsc(keys) + 1
    ensures r.Success? ==>
      var resized := seq(|images|, j requires 0 <= j < |images| => resize(images[j], size));
      forall t :: 0 <= t < |r.value| ==> r.value[t] == CallAt(resized, StepsPerPair(nMorphing, |images|), t)
  {
    var imgs := Resizing.ResizeAll(images, size, resize);
    var count := |imgs|;
    if count == 1 {
      return Failure(NoPairs);
    }
    var s := StepsPerPair(nMorphing, count);
    ghost var valid := count >= 2 && s >= 1;
    assert valid ==> ConfigError(count, nMorphing).None? && ESC in keys;
    var key: Option<int> := None;
    var calls: seq<Call> := [];
    while true
      invariant key.None? <==> calls == []
      invariant key.Some? ==> key.value != ESC
      invariant valid ==> |calls| <= FirstEsc(keys)
      invariant calls != [] ==> valid
      invariant valid ==> FrameAt(count, s, |calls|) == Frame(0, 0)
      invariant valid ==> forall t :: 0 <= t < |calls| ==> calls[t] == CallAt(imgs, s, t)
      decreases if valid then FirstEsc(keys) - |calls| else 0
    {
      ghost var start := |calls|;
      var i := 0;
      while i < count - 1
        invariant 0 <= i && (count >= 2 ==> i <= count - 1)
        invariant key.None? <==> calls == []
        invariant key.Some? ==> key.value != ESC
        invariant valid ==> |calls| <= FirstEsc(keys)
        invariant calls != [] ==> valid
        invariant start <= |calls| && (i > 0 ==> start < |calls|)
        invariant valid ==> FrameAt(count, s, |calls|) == if i < count - 1 then Frame(i, 0) else Frame(0, 0)
        invariant valid ==> forall t :: 0 <= t < |calls| ==> calls[t] == CallAt(imgs, s, t)
      {
        var shown := ShowPair(imgs, s, i, keys, calls, key);
        if shown.Failure? {
          return Failure(shown.error);
        }
        calls, key := shown.value.calls, shown.value.key;
        if key.None? {
          return Failure(KeyUnbound);
        }
        if key.value == ESC {
          break;
        }
        i := i + 1;
      }
      if key.None? {
        return Failure(KeyUnbound);
      }
      if key.value == ESC {
        break;
      }
    }
    return Success(calls);
  }
}
