/**
 * POST /5?offset=&limit=&split=: a window of a list of names, optionally cut
 * into chunks of a fixed size (src/day_05.rs).
 */
module Slicing {
  import opened Wrappers
  import Decimal

  const USIZE_MAX: int := 0xFFFF_FFFF_FFFF_FFFF

  /** The serde error raised when a query value is not a `usize`. */
  datatype QueryError = NotAnInteger(text: string)

  /**
   * `empty_string_as_none`: an absent value or an empty string is `None`; anything
   * else must parse as a `usize`.
   */
  function EmptyStringAsNone(raw: Option<string>): (r: Result<Option<nat>, QueryError>)
  {
    match raw
    case None => Ok(None)
    case Some(s) =>
      if s == "" then Ok(None)
      else
        match Decimal.ParseInt(s, 0, USIZE_MAX)
        case None => Err(NotAnInteger(s))
        case Some(n) => Ok(Some(n as nat))
  }

  /**
   * Absent and empty values both mean "not given"; a value is accepted exactly
   * when it parses as a `usize`, and the decimal text of every `usize` is read back
   * as that number.
   */
  lemma EmptyStringAsNoneMeaning(raw: Option<string>, n: nat)
    ensures (raw.None? || raw == Some("")) ==> EmptyStringAsNone(raw) == Ok(None)
    ensures raw.Some? && raw.value != "" ==>
      (EmptyStringAsNone(raw).Ok? <==> Decimal.ParseInt(raw.value, 0, USIZE_MAX).Some?)
    ensures raw.Some? && raw.value != "" ==>
      EmptyStringAsNone(raw) == match Decimal.ParseInt(raw.value, 0, USIZE_MAX)
        case Some(v) => Ok(Some(v))
        case None => Err(NotAnInteger(raw.value))
    ensures n <= USIZE_MAX ==> EmptyStringAsNone(Some(Decimal.Show(n))) == Ok(Some(n))
  {
    if n <= USIZE_MAX {
      Decimal.ShowParses(n, 0, USIZE_MAX);
    }
  }

  /** What the handler answers: the window itself, or the window cut into chunks. */
  datatype Sliced = Flat(items: seq<string>) | Chunked(chunks: seq<seq<string>>)

  function Min(a: int, b: int): int {
    if a <= b then a else b
  }

  /** `strings[offset..min(offset + limit, strings.len())]`. */
  function Window(strings: seq<string>, offset: nat, limit: nat): (w: seq<string>)
    requires offset <= |strings|
  {
    strings[offset..Min(offset + limit, |strings|)]
  }

  /** The window holds at most `limit` names, the ones that start at `offset`. */
  lemma WindowContents(strings: seq<string>, offset: nat, limit: nat)
    requires offset <= |strings|
    ensures |Window(strings, offset, limit)| == Min(limit, |strings| - offset)
    ensures forall i :: 0 <= i < |Window(strings, offset, limit)| ==>
      Window(strings, offset, limit)[i] == strings[offset + i]
  {
  }

  /** The window cut into consecutive pieces of `k` names, the last one possibly shorter. */
  function Chunks(w: seq<string>, k: nat): seq<seq<string>>
    requires k > 0 || w == []
    decreases |w|
  {
    if w == [] then [] else [w[..Min(k, |w|)]] + Chunks(w[Min(k, |w|)..], k)
  }

  function Flatten(chunks: seq<seq<string>>): seq<string> {
    if chunks == [] then [] else chunks[0] + Flatten(chunks[1..])
  }

  /** Concatenating the chunks gives the window back. */
  lemma {:induction false} FlattenChunks(w: seq<string>, k: nat)
    requires k > 0
    ensures Flatten(Chunks(w, k)) == w
    decreases |w|
  {
    if w != [] {
      var c := Chunks(w, k);
      var m := Min(k, |w|);
      FlattenChunks(w[m..], k);
      assert c[1..] == Chunks(w[m..], k);
      assert w[..m] + w[m..] == w;
    }
  }

  lemma DivIs(x: int, k: int, q: int)
    requires k > 0 && q * k <= x < q * k + k
    ensures x / k == q
  {
    var r := x / k;
    assert x == r * k + x % k && 0 <= x % k < k;
    assert (r - q) * k == r * k - q * k;
    assert (q - r) * k == q * k - r * k;
    if r > q {
      MulAtLeast(r - q, k);
    } else if r < q {
      MulAtLeast(q - r, k);
    }
  }

  lemma {:induction false} MulAtLeast(a: int, k: int)
    requires a >= 1 && k > 0
    ensures a * k >= k
    decreases a
  {
    if a > 1 {
      MulAtLeast(a - 1, k);
      assert a * k == (a - 1) * k + k;
    }
  }

  /** There are ceil(|w| / k) chunks. */
  lemma {:induction false} ChunkCount(w: seq<string>, k: nat)
    requires k > 0
    ensures |Chunks(w, k)| == (|w| + k - 1) / k
    decreases |w|
  {
    if w == [] {
      DivIs(k - 1, k, 0);
    } else {
      var m := Min(k, |w|);
      assert |Chunks(w, k)| == 1 + |Chunks(w[m..], k)|;
      ChunkCount(w[m..], k);
      if |w| <= k {
        DivIs(|w| + k - 1, k, 1);
      } else {
        var q := (|w| - k + k - 1) / k;
        assert q * k <= |w| - k + k - 1 < q * k + k by {
          DivBounds(|w| - k + k - 1, k);
        }
        assert (q + 1) * k == q * k + k;
        DivIs(|w| + k - 1, k, q + 1);
      }
    }
  }

  lemma DivBounds(x: int, k: int)
    requires k > 0
    ensures (x / k) * k <= x < (x / k) * k + k
  {
  }

  /** Every chunk but the last has exactly `k` names; the last has between 1 and `k`. */
  lemma {:induction false} ChunkSizes(w: seq<string>, k: nat)
    requires k > 0
    ensures forall i :: 0 <= i < |Chunks(w, k)| - 1 ==> |Chunks(w, k)[i]| == k
    ensures Chunks(w, k) != [] ==> 1 <= |Chunks(w, k)[|Chunks(w, k)| - 1]| <= k
    decreases |w|
  {
    if w != [] {
      var m := Min(k, |w|);
      var c, rest := Chunks(w, k), Chunks(w[m..], k);
      ChunkSizes(w[m..], k);
      assert c == [w[..m]] + rest;
      if |w| <= k {
        assert rest == [];
      } else {
        assert forall i :: 1 <= i < |c| ==> c[i] == rest[i - 1];
      }
    }
  }

  /** One more chunk taken off the front, as one turn of the handler's loop does. */
  lemma ChunksStep(w: seq<string>, index: nat, k: nat)
    requires k > 0 && index < |w|
    ensures Chunks(w[index..], k) == [w[index..Min(index + k, |w|)]] + Chunks(w[Min(index + k, |w|)..], k)
  {
    var v := w[index..];
    var m := Min(k, |v|);
    assert v[..m] == w[index..Min(index + k, |w|)];
    assert v[m..] == w[Min(index + k, |w|)..];
  }

  /** The `while index < result.len()` loop: push `result[index..min(index + k, len)]`, advance by `k`. */
  method SplitChunks(window: seq<string>, k: nat) returns (chunks: seq<seq<string>>)
    requires k > 0 || window == []
    ensures chunks == Chunks(window, k)
  {
    chunks := [];
    var index := 0;
    while index < |window|
      invariant k > 0 || window == []
      invariant index <= |window| ==> chunks + Chunks(window[index..], k) == Chunks(window, k)
      invariant index > |window| ==> chunks == Chunks(window, k)
      decreases |window| - index
    {
      var e := index + k;
      if e > |window| {
        e := |window|;
      }
      ChunksStep(window, index, k);
      chunks := chunks + [window[index..e]];
      index := index + k;
      if index > |window| {
        assert window[e..] == [];
      }
    }
    assert index == |window| ==> window[index..] == [];
  }

  /**
   * `day05_slice`. An empty list always answers "[]" (`Flat([])`). Otherwise the
   * offset defaults to 0 and the limit to the list's length. The handler panics
   * when the offset is past the end or `offset + limit` overflows a `usize`, and
   * never returns for `split=0` with a non-empty window; the requires exclude
   * exactly those cases.
   */
  method Day05Slice(strings: seq<string>, offset: Option<nat>, limit: Option<nat>, split: Option<nat>)
    returns (out: Sliced)
    requires strings != [] ==> offset.GetOr(0) <= |strings|
    requires strings != [] ==> offset.GetOr(0) + limit.GetOr(|strings|) <= USIZE_MAX
    requires strings != [] && offset.GetOr(0) <= |strings| && split == Some(0) ==>
      Window(strings, offset.GetOr(0), limit.GetOr(|strings|)) == []
    ensures strings == [] ==> out == Flat([])
    ensures strings != [] && split.None? ==> out == Flat(Window(strings, offset.GetOr(0), limit.GetOr(|strings|)))
    ensures strings != [] && split.Some? ==>
      out == Chunked(Chunks(Window(strings, offset.GetOr(0), limit.GetOr(|strings|)), split.value))
  {
    if strings == [] {
      return Flat([]);
    }
    var off := if offset.Some? then offset.value else 0;
    var lim := if limit.Some? then limit.value else |strings|;
    var end := off + lim;
    if end > |strings| {
      end := |strings|;
    }
    var window := strings[off..end];
    assert window == Window(strings, off, lim);
    if split.Some? {
      var chunks := SplitChunks(window, split.value);
      return Chunked(chunks);
    }
    return Flat(window);
  }
}
