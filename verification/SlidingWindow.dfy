/** The sliding window of inflate: a ring buffer that holds the last bytes of the output. */
module SlidingWindow {
  import opened Permutations

  /** What the ring holds, oldest byte first. Until it is full it is filled from its start. */
  function Ring(window: seq<Byte>, wnext: nat, whave: nat): seq<Byte>
    requires wnext <= |window| && whave <= |window|
  {
    if whave < |window| then window[..whave] else window[wnext..] + window[..wnext]
  }

  function Min(a: int, b: int): int { if a < b then a else b }

  /** The window holds as much of the end of hist as it has room for. */
  ghost predicate Holds(window: seq<Byte>, wnext: nat, whave: nat, hist: seq<Byte>) {
    && wnext < |window| && whave == Min(|hist|, |window|)
    && (whave < |window| ==> wnext == whave)
    && Ring(window, wnext, whave) == hist[|hist| - whave..]
  }

  lemma HoldsNothing(window: seq<Byte>)
    requires |window| > 0
    ensures Holds(window, 0, 0, [])
  {
  }

  /** A chunk as large as the window replaces it. */
  lemma HoldsAll(window: seq<Byte>, hist: seq<Byte>, chunk: seq<Byte>)
    requires 0 < |window| <= |chunk| && window == chunk[|chunk| - |window|..]
    ensures Holds(window, 0, |window|, hist + chunk)
  {
    assert window[0..] + window[..0] == window;
  }

  /** A chunk that fits before the end of the window... */
  lemma HoldsFitting(window: seq<Byte>, window': seq<Byte>, wnext: nat, whave: nat, hist: seq<Byte>, chunk: seq<Byte>)
    requires Holds(window, wnext, whave, hist) && |chunk| < |window| && wnext + |chunk| <= |window|
    requires window' == window[..wnext] + chunk + window[wnext + |chunk|..]
    ensures Holds(window', if wnext + |chunk| == |window| then 0 else wnext + |chunk|,
                  if whave < |window| then whave + |chunk| else whave, hist + chunk)
  {
    var n, c := |window|, |chunk|;
    var all := hist + chunk;
    if whave < n {
      assert hist == window[..whave];
      assert window'[..whave + c] == hist + chunk;
      if whave + c == n { assert window'[0..] + window'[..0] == window'; }
    } else {
      var wnext' := if wnext + c == n then 0 else wnext + c;
      var ring, ring' := Ring(window, wnext, n), Ring(window', wnext', n);
      forall k | 0 <= k < n ensures ring'[k] == all[|all| - n..][k] {
        if k < n - c { assert ring'[k] == ring[k + c]; }
      }
      assert ring' == all[|all| - n..];
    }
  }

  /** ... and one that wraps around. */
  lemma HoldsWrapping(window: seq<Byte>, window': seq<Byte>, wnext: nat, whave: nat, hist: seq<Byte>, chunk: seq<Byte>,
                      rest: nat)
    requires Holds(window, wnext, whave, hist) && |chunk| < |window| && rest > 0 && wnext + |chunk| == |window| + rest
    requires window' == chunk[|chunk| - rest..] + window[rest..wnext] + chunk[..|chunk| - rest]
    ensures Holds(window', rest, |window|, hist + chunk)
  {
    var n, all := |window|, hist + chunk;
    var ring, ring' := Ring(window, wnext, whave), Ring(window', rest, n);
    assert |hist| >= wnext;
    forall k | 0 <= k < n ensures ring'[k] == all[|all| - n..][k] {
      if k < wnext - rest {
        assert ring'[k] == window[rest + k];
        WindowByte(window, wnext, whave, hist, wnext - rest - k);
      }
    }
    assert ring' == all[|all| - n..];
  }

  /** Where the byte at distance d from the end of the output lies. */
  function Place(size: nat, wnext: nat, d: nat): int {
    if d > wnext then size - (d - wnext) else wnext - d
  }

  lemma WindowByte(window: seq<Byte>, wnext: nat, whave: nat, hist: seq<Byte>, d: nat)
    requires Holds(window, wnext, whave, hist) && 0 < d <= whave
    ensures 0 <= Place(|window|, wnext, d) < |window|
    ensures window[Place(|window|, wnext, d)] == hist[|hist| - d]
  {
    var ring := Ring(window, wnext, whave);
    assert ring[whave - d] == hist[|hist| - whave..][whave - d];
  }

  /** memcpy, between different arrays. */
  method CopyBytes(src: array<Byte>, from: nat, dst: array<Byte>, to: nat, n: nat)
    requires src != dst && from + n <= src.Length && to + n <= dst.Length
    modifies dst
    ensures dst[..] == old(dst[..to]) + src[from..from + n] + old(dst[to + n..])
  {
    for k := 0 to n
      invariant forall j | 0 <= j < dst.Length ::
                  dst[j] == if to <= j < to + k then src[from + (j - to)] else old(dst[j])
    {
      dst[to + k] := src[from + k];
    }
  }

  lemma WrappedContent(w0: seq<Byte>, w1: seq<Byte>, w2: seq<Byte>, wnext: nat, chunk: seq<Byte>, dist: nat)
    requires wnext + dist == |w0| == |w1| == |w2| && dist < |chunk| < |w0|
    requires w1 == w0[..wnext] + chunk[..dist] + w0[|w0|..]
    requires w2 == w1[..0] + chunk[dist..] + w1[|chunk| - dist..]
    ensures w2 == chunk[dist..] + w0[|chunk| - dist..wnext] + chunk[..dist]
  {
    assert w1[|chunk| - dist..] == w0[|chunk| - dist..wnext] + chunk[..dist];
  }

  /** Less than a windowful: as much as fits before the end of the ring, the rest at its start. */
  method FillRing(window: array<Byte>, wnext: nat, out: array<Byte>, put: nat, copy: nat) returns (dist: nat, rest: nat)
    requires window != out && copy <= put <= out.Length && wnext < window.Length && copy < window.Length
    modifies window
    ensures dist == Min(window.Length - wnext, copy) && rest == copy - dist
    ensures rest == 0 ==> window[..] == old(window[..wnext]) + out[put - copy..put] + old(window[wnext + copy..])
    ensures rest > 0 ==> window[..] == out[put - rest..put] + old(window[rest..wnext]) + out[put - copy..put - rest]
  {
    ghost var w0, chunk := window[..], out[put - copy..put];
    dist := window.Length - wnext;
    if dist > copy { dist := copy; }
    CopyBytes(out, put - copy, window, wnext, dist);
    assert out[put - copy..put - copy + dist] == chunk[..dist];
    rest := copy - dist;
    if rest > 0 {
      ghost var w1 := window[..];
      CopyBytes(out, put - rest, window, 0, rest);
      assert out[put - rest..put] == chunk[dist..];
      WrappedContent(w0, w1, window[..], wnext, chunk, dist);
    }
  }

  /** updatewindow: the copy bytes of output before put enter the ring. */
  method UpdateWindow(window: array<Byte>, wnext: nat, whave: nat, out: array<Byte>, put: nat, copy: nat,
                      ghost hist: seq<Byte>)
    returns (wnext': nat, whave': nat)
    requires window != out && copy <= put <= out.Length && Holds(window[..], wnext, whave, hist)
    modifies window
    ensures Holds(window[..], wnext', whave', hist + out[put - copy..put])
  {
    hide Holds;
    ghost var w0, chunk := window[..], out[put - copy..put];
    HoldsBounds(w0, wnext, whave, hist);
    var wsize := window.Length;
    if copy >= wsize {
      CopyBytes(out, put - wsize, window, 0, wsize);
      HoldsAll(window[..], hist, chunk);
      return 0, wsize;
    }
    var dist, rest := FillRing(window, wnext, out, put, copy);
    if rest > 0 {
      assert chunk[..copy - rest] == out[put - copy..put - rest] && chunk[copy - rest..] == out[put - rest..put];
      HoldsWrapping(w0, window[..], wnext, whave, hist, chunk, rest);
      return rest, wsize;
    }
    HoldsFitting(w0, window[..], wnext, whave, hist, chunk);
    wnext' := wnext + dist;
    if wnext' == wsize { wnext' := 0; }
    whave' := whave;
    if whave < wsize { whave' := whave + dist; }
  }

  lemma HoldsBounds(window: seq<Byte>, wnext: nat, whave: nat, hist: seq<Byte>)
    requires Holds(window, wnext, whave, hist)
    ensures wnext < |window| && whave == Min(|hist|, |window|) && (whave < |window| ==> wnext == whave)
  {
  }
}
