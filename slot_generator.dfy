/**
 * The slot generator of add_availability as a specification: the start times
 * that the cursor walk emits, and the labels it writes into the `time` column.
 */
module SlotGenerator {
  import opened Common
  import opened Clock

  /** The optional lunch break; present only when both break fields were filled in. */
  datatype BreakWindow = NoBreak | Window(from: int, until: int)

  /** The only break test the generator makes: does the cursor stand in [from, until)? */
  predicate InBreak(t: int, brk: BreakWindow) {
    brk.Window? && brk.from <= t < brk.until
  }

  /**
   * The start times emitted by the walk from `cursor` up to `end` in steps of
   * `len` minutes: a cursor inside the break jumps to the break's end without
   * emitting, a cursor whose whole slot fits before `end` emits, and a
   * trailing partial slot is dropped.
   */
  function SlotStarts(cursor: int, end: int, brk: BreakWindow, len: int): (r: seq<int>)
    requires len > 0
    ensures forall i :: 0 <= i < |r| ==> cursor <= r[i] && r[i] + len <= end && !InBreak(r[i], brk)
    decreases end - cursor
  {
    if cursor >= end then []
    else if InBreak(cursor, brk) then SlotStarts(brk.until, end, brk, len)
    else if cursor + len <= end then [cursor] + SlotStarts(cursor + len, end, brk, len)
    else SlotStarts(cursor + len, end, brk, len)
  }

  /** Each slot [s, s + len) ends no later than the next one starts. */
  predicate Spaced(starts: seq<int>, len: int) {
    forall i, j :: 0 <= i < j < |starts| ==> starts[i] + len <= starts[j]
  }

  /** Emitted slots are pairwise disjoint and in increasing order. */
  lemma {:induction false} StartsSpaced(cursor: int, end: int, brk: BreakWindow, len: int)
    requires len > 0
    ensures Spaced(SlotStarts(cursor, end, brk, len), len)
    decreases end - cursor
  {
    if cursor >= end {
    } else if InBreak(cursor, brk) {
      StartsSpaced(brk.until, end, brk, len);
      assert SlotStarts(cursor, end, brk, len) == SlotStarts(brk.until, end, brk, len);
    } else {
      StartsSpaced(cursor + len, end, brk, len);
      var rest := SlotStarts(cursor + len, end, brk, len);
      if cursor + len <= end {
        var r := SlotStarts(cursor, end, brk, len);
        assert r == [cursor] + rest;
        forall i, j | 0 <= i < j < |r|
          ensures r[i] + len <= r[j]
        {
          if i == 0 {
            assert r[j] == rest[j - 1];
            assert cursor + len <= rest[j - 1];
          } else {
            assert r[i] == rest[i - 1] && r[j] == rest[j - 1];
            assert rest[i - 1] + len <= rest[j - 1];
          }
        }
      }
    }
  }

  /** Without a break the walk emits floor((end - cursor) / len) slots. */
  lemma {:induction false} CountWithoutBreak(cursor: int, end: int, len: int)
    requires len > 0 && cursor <= end
    ensures |SlotStarts(cursor, end, NoBreak, len)| == (end - cursor) / len
    decreases end - cursor
  {
    if cursor == end {
    } else if cursor + len <= end {
      CountWithoutBreak(cursor + len, end, len);
      DivStep(end - cursor, len);
    } else {
      assert SlotStarts(cursor + len, end, NoBreak, len) == [];
      DivSmall(end - cursor, len);
    }
  }

  lemma DivStep(n: int, d: int)
    requires 0 < d <= n
    ensures n / d == 1 + (n - d) / d
  {
    var q, r := (n - d) / d, (n - d) % d;
    assert n - d == q * d + r;
    assert n == (q + 1) * d + r;
    DivUnique(n, d, q + 1, r);
  }

  /** Euclidean division is determined by quotient and remainder. */
  lemma DivUnique(n: int, d: int, q: int, r: int)
    requires d > 0 && 0 <= r < d && n == q * d + r
    ensures n / d == q
  {
    var q', r' := n / d, n % d;
    assert n == q' * d + r';
    MulDistrib(q, q', d);
    if q' < q {
      MulAtLeast(q - q', d);
    } else if q' > q {
      MulDistrib(q', q, d);
      MulAtLeast(q' - q, d);
    }
  }

  lemma MulDistrib(a: int, b: int, d: int)
    ensures a * d - b * d == (a - b) * d
  {
  }

  lemma {:induction false} MulAtLeast(x: int, d: int)
    requires x >= 1 && d > 0
    ensures x * d >= d
    decreases x
  {
    if x > 1 {
      MulAtLeast(x - 1, d);
      MulDistrib(x, 1, d);
    }
  }

  lemma DivSmall(n: int, d: int)
    requires 0 <= n < d
    ensures n / d == 0
  {
  }

  /** Every start time a walk from a valid time of day emits has a slot end that is one too. */
  predicate LabelsDefined(starts: seq<int>, len: int) {
    len >= 0 && forall i :: 0 <= i < |starts| ==> 0 <= starts[i] && starts[i] + len < MinutesPerDay
  }

  /** The `time` strings of the slots that begin at `starts`, in the same order. */
  function Labels(starts: seq<int>, len: int): (r: seq<string>)
    requires LabelsDefined(starts, len)
  {
    seq(|starts|, i requires 0 <= i < |starts| => SlotLabel(starts[i], starts[i] + len))
  }

  lemma LabelsTail(s: int, rest: seq<int>, len: int)
    requires LabelsDefined([s] + rest, len)
    ensures LabelsDefined(rest, len)
  {
    var all := [s] + rest;
    forall i | 0 <= i < |rest|
      ensures 0 <= rest[i] && rest[i] + len < MinutesPerDay
    {
      assert rest[i] == all[i + 1];
    }
  }

  lemma LabelsCons(s: int, rest: seq<int>, len: int)
    requires 0 <= s && s + len < MinutesPerDay && LabelsDefined([s] + rest, len)
    ensures LabelsDefined(rest, len)
    ensures Labels([s] + rest, len) == [SlotLabel(s, s + len)] + Labels(rest, len)
  {
    LabelsTail(s, rest, len);
    var l, m := Labels([s] + rest, len), Labels(rest, len);
    forall i | 0 <= i < |rest|
      ensures l[i + 1] == m[i]
    {
      LabelShift(s, rest, len, i);
    }
    assert l == [l[0]] + m;
  }

  lemma LabelShift(s: int, rest: seq<int>, len: int, i: int)
    requires LabelsDefined([s] + rest, len) && LabelsDefined(rest, len) && 0 <= i < |rest|
    ensures Labels([s] + rest, len)[i + 1] == Labels(rest, len)[i]
  {
    assert ([s] + rest)[i + 1] == rest[i];
  }

  /** The labels the walk emits from `cursor` on: for cursor = start, the candidates of one call. */
  function GeneratedLabels(cursor: int, end: Minute, brk: BreakWindow, len: int): (r: seq<string>)
    requires cursor >= 0 && len > 0
  {
    Labels(SlotStarts(cursor, end, brk, len), len)
  }

  /** One step of the walk, as the loop of add_availability takes it. */
  lemma GeneratedLabelsStep(cursor: int, end: Minute, brk: BreakWindow, len: int)
    requires cursor >= 0 && len > 0
    ensures cursor >= end ==> GeneratedLabels(cursor, end, brk, len) == []
    ensures cursor < end && InBreak(cursor, brk) ==>
      GeneratedLabels(cursor, end, brk, len) == GeneratedLabels(brk.until, end, brk, len)
    ensures cursor < end && !InBreak(cursor, brk) && cursor + len <= end ==>
      GeneratedLabels(cursor, end, brk, len)
      == [SlotLabel(cursor, cursor + len)] + GeneratedLabels(cursor + len, end, brk, len)
    ensures cursor < end && !InBreak(cursor, brk) && cursor + len > end ==>
      GeneratedLabels(cursor, end, brk, len) == GeneratedLabels(cursor + len, end, brk, len)
  {
    if cursor < end && !InBreak(cursor, brk) && cursor + len <= end {
      EmitStep(cursor, end, brk, len);
    }
  }

  /** The step of the walk that emits the slot at the cursor. */
  lemma EmitStep(cursor: int, end: Minute, brk: BreakWindow, len: int)
    requires cursor >= 0 && len > 0 && cursor < end && !InBreak(cursor, brk) && cursor + len <= end
    ensures GeneratedLabels(cursor, end, brk, len)
      == [SlotLabel(cursor, cursor + len)] + GeneratedLabels(cursor + len, end, brk, len)
  {
    LabelsCons(cursor, SlotStarts(cursor + len, end, brk, len), len);
  }

  /** The labels of one call are pairwise distinct. */
  lemma GeneratedLabelsDistinct(start: int, end: Minute, brk: BreakWindow, len: int)
    requires start >= 0 && len > 0
    ensures Distinct(GeneratedLabels(start, end, brk, len))
  {
    StartsSpaced(start, end, brk, len);
    SpacedLabelsDistinct(SlotStarts(start, end, brk, len), len);
  }

  /** Slots that start at least `len` apart have distinct labels. */
  lemma SpacedLabelsDistinct(starts: seq<int>, len: int)
    requires len > 0 && LabelsDefined(starts, len) && Spaced(starts, len)
    ensures Distinct(Labels(starts, len))
  {
    var r := Labels(starts, len);
    forall i, j | 0 <= i < j < |r|
      ensures r[i] != r[j]
    {
      LabelsDiffer(starts, len, i, j);
    }
  }

  lemma LabelsDiffer(starts: seq<int>, len: int, i: int, j: int)
    requires len > 0 && LabelsDefined(starts, len) && 0 <= i < j < |starts| && starts[i] + len <= starts[j]
    ensures Labels(starts, len)[i] != Labels(starts, len)[j]
  {
    LabelDiffers(starts[i], starts[j], len);
  }

  lemma LabelDiffers(a: Minute, b: Minute, len: int)
    requires len > 0 && a + len <= b && b + len < MinutesPerDay
    ensures SlotLabel(a, a + len) != SlotLabel(b, b + len)
  {
    LabelInjective(a, a + len, b, b + len);
  }

  /** 09:00-12:00 in hour slots with a 10:00-11:00 break gives exactly two slots. */
  lemma MorningWithBreak()
    ensures GeneratedLabels(540, 720, Window(600, 660), 60) == ["09:00 - 10:00", "11:00 - 12:00"]
  {
    var brk := Window(600, 660);
    assert SlotStarts(720, 720, brk, 60) == [];
    assert SlotStarts(660, 720, brk, 60) == [660];
    assert SlotStarts(600, 720, brk, 60) == [660];
    assert SlotStarts(540, 720, brk, 60) == [540, 660];
    assert FormatHHMM(540) == "09:00";
    assert FormatHHMM(600) == "10:00";
    assert FormatHHMM(660) == "11:00";
    assert FormatHHMM(720) == "12:00";
    assert SlotLabel(540, 600) == "09:00 - 10:00";
    assert SlotLabel(660, 720) == "11:00 - 12:00";
  }

  /**
   * Only a slot's start is tested against the break: with 45-minute slots
   * over 09:00-12:00 and a 10:00-11:00 break, the 09:45-10:30 slot is emitted
   * and runs into the break.
   */
  lemma BreakGuardsOnlyStarts()
    ensures var r := SlotStarts(540, 720, Window(600, 660), 45);
      r == [540, 585, 660] && 585 < 600 < 585 + 45
  {
    var brk := Window(600, 660);
    assert SlotStarts(750, 720, brk, 45) == [];
    assert SlotStarts(705, 720, brk, 45) == [];
    assert SlotStarts(660, 720, brk, 45) == [660];
    assert SlotStarts(630, 720, brk, 45) == [660];
    assert SlotStarts(585, 720, brk, 45) == [585, 660];
  }

  /** A slot that does overlap the break starts before it: it never starts inside it. */
  lemma OverlapStartsBeforeBreak(cursor: int, end: int, from: int, until: int, len: int)
    requires len > 0
    ensures var r := SlotStarts(cursor, end, Window(from, until), len);
      forall i :: 0 <= i < |r| && r[i] < until && from < r[i] + len ==> r[i] < from
  {
  }
}
