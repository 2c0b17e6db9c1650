/** What makes a stretch of memory a usable dictionary for the next block of a linked frame. */
module FrameHistory {
  import opened Bytes
  import opened Numbers
  import opened FrameFormat

  /** `dict` ends with the last `window` bytes of `out` (or with all of it), and is no longer than
      `out`. */
  predicate Hist(dict: seq<byte>, out: seq<byte>, window: nat) {
    && |dict| <= |out| && Min(window, |out|) <= |dict|
    && forall i: nat :: i < Min(window, |out|) ==> FromEnd(dict, i) == FromEnd(out, i)
  }

  function FromEnd(s: seq<byte>, i: nat): byte
    requires i < |s|
  {
    s[|s| - 1 - i]
  }

  /** How much history must already be in place while `waiting` decoded bytes are not delivered. */
  function Window(waiting: nat): nat {
    Max(0, KB64 - waiting)
  }

  lemma LastAgree(a: seq<byte>, b: seq<byte>, n: nat)
    requires n <= |a| && n <= |b| && forall i: nat :: i < n ==> FromEnd(a, i) == FromEnd(b, i)
    ensures a[|a| - n..] == b[|b| - n..]
  {
    var x, y := a[|a| - n..], b[|b| - n..];
    forall k: nat | k < n ensures x[k] == y[k] {
      assert FromEnd(a, n - 1 - k) == FromEnd(b, n - 1 - k);
    }
  }

  /** Such a dictionary is as good as the whole output. */
  lemma HistDecodes(c: Codec, dict: seq<byte>, out: seq<byte>, x: seq<byte>, cap: nat)
    requires Decodes(c) && Hist(dict, out, KB64)
    ensures c.decode(dict, x, cap) == c.decode(out, x, cap)
  {
    assert Last(dict, KB64) == Last(out, KB64) by {
      var n := Min(KB64, |out|);
      LastAgree(dict, out, n);
      assert n == |out| ==> dict[|dict| - n..] == dict && out[|out| - n..] == out;
    }
    assert c.decode(dict, x, cap) == c.decode(Last(dict, KB64), x, cap);
    assert c.decode(out, x, cap) == c.decode(Last(out, KB64), x, cap);
  }

  lemma HistNothing(window: nat)
    ensures Hist([], [], window)
  {
  }

  lemma HistWeaken(dict: seq<byte>, out: seq<byte>, window: nat, less: nat)
    requires Hist(dict, out, window) && less <= window
    ensures Hist(dict, out, less)
  {
  }

  lemma FromEndOfSum(s: seq<byte>, x: seq<byte>, i: nat)
    requires i < |s| + |x|
    ensures FromEnd(s + x, i) == if i < |x| then FromEnd(x, i) else FromEnd(s, i - |x|)
  {
  }

  /** Output that directly follows the dictionary extends it. */
  lemma HistExtend(dict: seq<byte>, out: seq<byte>, x: seq<byte>, window: nat)
    requires Hist(dict, out, window)
    ensures Hist(dict + x, out + x, window + |x|)
  {
    forall i: nat | i < Min(window + |x|, |out + x|) ensures FromEnd(dict + x, i) == FromEnd(out + x, i) {
      FromEndOfSum(dict, x, i);
      FromEndOfSum(out, x, i);
    }
  }

  /** The end of the output itself, if it is long enough. */
  lemma HistTail(dict: seq<byte>, before: seq<byte>, window: nat)
    requires window <= |dict| || before == []
    ensures Hist(dict, before + dict, window)
  {
    forall i: nat | i < Min(window, |before + dict|) ensures FromEnd(dict, i) == FromEnd(before + dict, i) {
      FromEndOfSum(before, dict, i);
    }
  }

  /** A dictionary may be cut to its last `keep` bytes, and anything put in front of them. */
  lemma HistReplace(dict: seq<byte>, out: seq<byte>, window: nat, front: seq<byte>, keep: nat)
    requires Hist(dict, out, window) && keep <= |dict| && Min(window, |out|) <= keep && |front| + keep <= |out|
    ensures Hist(front + dict[|dict| - keep..], out, window)
  {
    var tail := dict[|dict| - keep..];
    forall i: nat | i < Min(window, |out|) ensures FromEnd(front + tail, i) == FromEnd(out, i) {
      FromEndOfSum(front, tail, i);
      assert FromEnd(tail, i) == FromEnd(dict, i);
    }
  }

  /** The delivered part of a waiting block with, in front of it, enough of the dictionary that
      preceded the block. */
  lemma HistInFront(dict: seq<byte>, out: seq<byte>, window: nat, front: seq<byte>, copied: seq<byte>,
      delivered: seq<byte>)
    requires Hist(dict, out, window) && |delivered| <= |out| && out[|out| - |delivered|..] == delivered
    requires |copied| > 0 ==>
      |copied| + |delivered| <= |dict| && copied == dict[|dict| - |delivered| - |copied|..|dict| - |delivered|]
    requires |front| + |copied| + |delivered| <= |out| && Min(window, |out|) <= |copied| + |delivered|
    ensures Hist(front + copied + delivered, out, window)
  {
    var d := front + copied + delivered;
    forall i: nat | i < Min(window, |out|) ensures FromEnd(d, i) == FromEnd(out, i) {
      if i < |delivered| {
        assert FromEnd(d, i) == FromEnd(delivered, i) == out[|out| - |delivered|..][|delivered| - 1 - i];
      } else {
        assert FromEnd(d, i) == copied[|copied| - 1 - (i - |delivered|)] == FromEnd(dict, i);
      }
    }
  }

  /** A buffer that got at least the last 64 KB of the output. */
  lemma DstIsHistory(delivered: seq<byte>, x: seq<byte>, out: seq<byte>, window: nat)
    requires |delivered| <= |out| && delivered == out[|out| - |delivered|..] && window <= |delivered| + |x|
    ensures Hist(delivered + x, out + x, window)
  {
    var head := out[..|out| - |delivered|];
    HistTail(delivered + x, head, window);
    assert head + (delivered + x) == out + x;
  }

  // ---------------------------------------------------------------- a block that waits

  /** The first `start` bytes of the block at `at` are the end of the output. */
  predicate Delivered(buffer: seq<byte>, at: nat, start: nat, out: seq<byte>) {
    at + start <= |buffer| && start <= |out| && out[|out| - start..] == buffer[at..at + start]
  }

  /** A block of `size` bytes is at `at`, the first `start` of them delivered at the end of `out`:
      the dictionary and what is still to be delivered together make up the history. */
  predicate Waits(dict: seq<byte>, inTmp: bool, buffer: seq<byte>, at: nat, size: nat, start: nat, out: seq<byte>) {
    && start <= size && at + size <= |buffer| && Delivered(buffer, at, start, out)
    && Hist(dict, out, Window(size - start)) && at + start <= |out| && Min(KB64, |out| - start) <= at
    && (if inTmp then |dict| == at + start else at + start <= |dict| || KB64 <= |dict|)
  }

  /** Where a decoded block goes. */
  function Behind(dict: seq<byte>, inTmp: bool): nat {
    if inTmp then |dict| else Min(|dict|, KB64)
  }

  /** A block arrives. */
  lemma StoreWaits(dict: seq<byte>, inTmp: bool, buffer: seq<byte>, content: seq<byte>, out: seq<byte>)
    requires Hist(dict, out, KB64) && (inTmp ==> dict <= buffer) && Behind(dict, inTmp) + |content| <= |buffer|
    ensures var at := Behind(dict, inTmp);
      var now := Overwrite(buffer, at, content);
      Waits(dict, inTmp, now, at, |content|, 0, out) && (inTmp ==> dict <= now) && now[at..at + |content|] == content
  {
    OverwriteParts(buffer, Behind(dict, inTmp), content);
    HistWeaken(dict, out, KB64, Window(|content|));
  }

  lemma CopyIsEnough(at: nat, size: nat, start: nat, length: nat, dictSize: nat, copySize: nat)
    requires start <= size && at + start <= length && Min(KB64, length - start) <= at
    requires at + start <= dictSize || KB64 <= dictSize
    requires copySize == if size > KB64 then 0 else if KB64 - size > at then at else KB64 - size
    ensures copySize > 0 ==> copySize + start <= dictSize
    ensures Min(Window(size - start), length) <= copySize + start
  {
  }

  lemma DeliveredFrame(buffer: seq<byte>, now: seq<byte>, at: nat, start: nat, out: seq<byte>)
    requires Delivered(buffer, at, start, out) && |now| == |buffer| && now[at..] == buffer[at..]
    ensures Delivered(now, at, start, out)
  {
    assert now[at..at + start] == now[at..][..start];
    assert buffer[at..at + start] == buffer[at..][..start];
  }

  /** A buffer whose part before `at` ends with `copied`. */
  lemma FrontIsHist(dict: seq<byte>, now: seq<byte>, at: nat, start: nat, out: seq<byte>, window: nat,
      copied: seq<byte>)
    requires Hist(dict, out, window) && Delivered(now, at, start, out) && at + start <= |out|
    requires |copied| <= at && now[at - |copied|..at] == copied && Min(window, |out|) <= |copied| + start
    requires |copied| > 0 ==> |copied| + start <= |dict| && copied == dict[|dict| - start - |copied|..|dict| - start]
    ensures Hist(now[..at + start], out, window)
  {
    hide Hist, Min;
    var front, delivered := now[..at - |copied|], now[at..at + start];
    HistInFront(dict, out, window, front, copied, delivered);
    assert now[..at + start] == front + copied + delivered;
  }

  /** The last bytes of the dictionary before the block are copied in front of it: then the
      buffer up to the end of the delivered part is the dictionary. */
  lemma FrontWaits(dict: seq<byte>, buffer: seq<byte>, at: nat, size: nat, start: nat, out: seq<byte>,
      copied: seq<byte>)
    requires Waits(dict, false, buffer, at, size, start, out)
    requires |copied| == if size > KB64 then 0 else if KB64 - size > at then at else KB64 - size
    requires |copied| > 0 ==> |copied| + start <= |dict| && copied == dict[|dict| - start - |copied|..|dict| - start]
    ensures var now := Overwrite(buffer, at - |copied|, copied);
      && Waits(now[..at + start], true, now, at, size, start, out) && now[at..] == buffer[at..]
  {
    hide Hist, Delivered, Overwrite, Window, Min;
    var now := Overwrite(buffer, at - |copied|, copied);
    OverwriteParts(buffer, at - |copied|, copied);
    CopyIsEnough(at, size, start, |out|, |dict|, |copied|);
    DeliveredFrame(buffer, now, at, start, out);
    FrontIsHist(dict, now, at, start, out, Window(size - start), copied);
  }

  lemma WindowGrows(waiting: nat, n: nat)
    requires n <= waiting
    ensures Window(waiting - n) <= Min(KB64, Window(waiting) + n)
  {
  }

  lemma DeliveredMore(buffer: seq<byte>, at: nat, start: nat, x: seq<byte>, out: seq<byte>)
    requires Delivered(buffer, at, start, out) && at + start + |x| <= |buffer|
             && x == buffer[at + start..at + start + |x|]
    ensures Delivered(buffer, at, start + |x|, out + x)
  {
    assert buffer[at..at + start + |x|] == buffer[at..at + start] + x;
    assert (out + x)[|out + x| - (start + |x|)..] == out[|out| - start..] + x;
  }

  /** Delivering more of the block, with the dictionary in front of it. */
  lemma TmpGrows(dict: seq<byte>, buffer: seq<byte>, at: nat, size: nat, start: nat, out: seq<byte>, x: seq<byte>)
    requires Waits(dict, true, buffer, at, size, start, out) && dict <= buffer
    requires start + |x| <= size && x == buffer[at + start..at + start + |x|]
    ensures Waits(dict + x, true, buffer, at, size, start + |x|, out + x) && dict + x == buffer[..at + start + |x|]
  {
    DeliveredMore(buffer, at, start, x, out);
    HistExtend(dict, out, x, Window(size - start));
    WindowGrows(size - start, |x|);
    HistWeaken(dict + x, out + x, Window(size - start) + |x|, Window(size - (start + |x|)));
  }

  /** Delivering more of the block, with the dictionary where it is delivered to. */
  lemma DstGrows(dict: seq<byte>, inTmp: bool, buffer: seq<byte>, at: nat, size: nat, start: nat, out: seq<byte>,
      x: seq<byte>, now: seq<byte>)
    requires Waits(dict, inTmp, buffer, at, size, start, out) && start + |x| <= size
             && x == buffer[at + start..at + start + |x|]
    requires Hist(now, out + x, Min(KB64, Window(size - start) + |x|))
    requires KB64 <= |now| || (|now| == |dict| + |x| && (!inTmp || dict == []))
    ensures Waits(now, false, buffer, at, size, start + |x|, out + x)
  {
    DeliveredMore(buffer, at, start, x, out);
    WindowGrows(size - start, |x|);
    HistWeaken(now, out + x, Min(KB64, Window(size - start) + |x|), Window(size - (start + |x|)));
  }

  lemma AllDelivered(dict: seq<byte>, inTmp: bool, buffer: seq<byte>, at: nat, size: nat, out: seq<byte>)
    requires Waits(dict, inTmp, buffer, at, size, size, out)
    ensures Hist(dict, out, KB64)
  {
  }

  // ---------------------------------------------------------------- no block waits

  /** Cut to its last 64 KB, a dictionary is as good. */
  lemma HistCut(dict: seq<byte>, out: seq<byte>, keep: nat)
    requires Hist(dict, out, KB64) && keep <= |dict| && Min(KB64, |dict|) <= keep
    ensures Hist(dict[|dict| - keep..], out, KB64)
  {
    HistReplace(dict, out, KB64, [], keep);
    assert [] + dict[|dict| - keep..] == dict[|dict| - keep..];
  }

  /** With new output of less than 64 KB, so much of the dictionary is enough. */
  lemma HistKeep(dict: seq<byte>, out: seq<byte>, x: seq<byte>, keep: nat)
    requires Hist(dict, out, KB64) && |x| < KB64 && keep <= |dict| && (keep == |dict| || keep == KB64 - |x|)
    ensures Hist(dict[|dict| - keep..] + x, out + x, KB64)
  {
    var window := KB64 - |x|;
    HistWeaken(dict, out, KB64, window);
    HistReplace(dict, out, window, [], keep);
    assert [] + dict[|dict| - keep..] == dict[|dict| - keep..];
    HistExtend(dict[|dict| - keep..], out, x, window);
  }

  /** The dictionary goes on where it ends. */
  lemma HistGrows(dict: seq<byte>, out: seq<byte>, x: seq<byte>, window: nat)
    requires Hist(dict, out, window)
    ensures Hist(dict + x, out + x, Min(KB64, window + |x|))
  {
    HistExtend(dict, out, x, window);
    HistWeaken(dict + x, out + x, window + |x|, Min(KB64, window + |x|));
  }

  lemma EndsInMore(delivered: seq<byte>, x: seq<byte>, out: seq<byte>)
    requires |delivered| <= |out| && delivered == out[|out| - |delivered|..]
    ensures delivered + x == (out + x)[|out + x| - |delivered + x|..]
  {
  }

  lemma SliceOfSlice(s: seq<byte>, a: nat, b: nat, i: nat, j: nat)
    requires a <= b <= |s| && i <= j <= b - a
    ensures s[a..b][i..j] == s[a + i..a + j]
  {
    var l, r := s[a..b][i..j], s[a + i..a + j];
    forall k | 0 <= k < |l| ensures l[k] == r[k] {
      assert l[k] == s[a..b][i + k];
    }
  }

  lemma SlicesJoin(s: seq<byte>, a: nat, b: nat, c: nat)
    requires a <= b <= c <= |s|
    ensures s[a..b] + s[b..c] == s[a..c]
  {
  }

  // ---------------------------------------------------------------- output

  /** The bytes of `dst` from `from` to `to` went out behind what had gone out before. */
  predicate SentTo(out0: seq<byte>, dst0: seq<byte>, from: nat, to: nat, out: seq<byte>, dst: seq<byte>) {
    from <= to <= |dst| && |dst| == |dst0| && out == out0 + dst[from..to] && dst[..from] == dst0[..from]
  }

  lemma SentBounds(out0: seq<byte>, dst0: seq<byte>, from: nat, to: nat, out: seq<byte>, dst: seq<byte>)
    requires SentTo(out0, dst0, from, to, out, dst)
    ensures from <= to <= |dst|
  {
  }

  lemma SentOn(out0: seq<byte>, dst0: seq<byte>, a: nat, b: nat, c: nat, out1: seq<byte>, dst1: seq<byte>,
      out: seq<byte>, dst: seq<byte>)
    requires SentTo(out0, dst0, a, b, out1, dst1) && SentTo(out1, dst1, b, c, out, dst)
    ensures SentTo(out0, dst0, a, c, out, dst)
  {
    assert dst[..a] == dst[..b][..a] && dst1[..a] == dst1[..b][..a];
    assert dst[a..b] == dst[..b][a..] && dst1[a..b] == dst1[..b][a..];
    SlicesJoin(dst, a, b, c);
  }

  lemma SentNothing(out: seq<byte>, dst: seq<byte>, from: nat)
    requires from <= |dst|
    ensures SentTo(out, dst, from, from, out, dst)
  {
  }
}
