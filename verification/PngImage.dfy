/** All rows of a PNG image: the filtered stream, its meaning, and the reconstruction of
    the rows one after the other in the output buffer. */
module PngImage {
  import opened Bytes
  import opened PngFilter
  import opened PngRow

  // ----- The filtered stream

  /** n bytes of zero: what the first row has above it. */
  function Zeros(n: nat): (r: seq<byte>)
    ensures |r| == n && forall i :: 0 <= i < n ==> r[i] == 0
  {
    seq(n, _ => 0)
  }

  /** The rows in raw from position r on: each a filter type and rb filtered bytes. */
  ghost function Rows(raw: seq<byte>, r: nat, n: nat, rb: nat, fb: nat, above: seq<byte>): Option<seq<seq<byte>>>
    requires fb > 0 && |above| == rb
    decreases n
  {
    if n == 0 then Some([])
    else if r + 1 + rb > |raw| || raw[r] > 4 then None
    else
      var row := Recon(raw[r], fb, above, raw[r + 1..r + 1 + rb]);
      match Rows(raw, r + 1 + rb, n - 1, rb, fb, row)
      case None => None
      case Some(rest) => Some([row] + rest)
  }

  /** What an encoder writes for these rows with these filter types. */
  ghost function Encoded(filters: seq<nat>, rows: seq<seq<byte>>, rb: nat, fb: nat, above: seq<byte>): seq<byte>
    requires fb > 0 && |above| == rb && |filters| == |rows|
    requires forall i :: 0 <= i < |rows| ==> |rows[i]| == rb && filters[i] <= 4
    decreases |rows|
  {
    if rows == [] then []
    else [filters[0]] + Filtered(filters[0], fb, above, rows[0]) + Encoded(filters[1..], rows[1..], rb, fb, rows[0])
  }

  /** Reconstruction undoes filtering for whole images, whatever filter each row uses and
      whatever follows the image data. */
  lemma {:induction false} RowsUndoEncoding(head: seq<byte>, filters: seq<nat>, rows: seq<seq<byte>>, rb: nat, fb: nat,
                                            above: seq<byte>, trailing: seq<byte>)
    requires fb > 0 && |above| == rb && |filters| == |rows|
    requires forall i :: 0 <= i < |rows| ==> |rows[i]| == rb && filters[i] <= 4
    ensures Rows(head + Encoded(filters, rows, rb, fb, above) + trailing, |head|, |rows|, rb, fb, above) == Some(rows)
    decreases |rows|
  {
    hide Recon, Filtered;
    if rows != [] {
      var f, row := filters[0], rows[0];
      var filtered := Filtered(f, fb, above, row);
      var rest := Encoded(filters[1..], rows[1..], rb, fb, row);
      RowsUndoEncoding(head + [f] + filtered, filters[1..], rows[1..], rb, fb, row, trailing);
      Pieces(head, f, filtered, rest, trailing);
      ReconUndoesFilter(f, fb, above, row);
      assert [rows[0]] + rows[1..] == rows;
    }
  }

  lemma Pieces(head: seq<byte>, f: nat, filtered: seq<byte>, rest: seq<byte>, trailing: seq<byte>)
    requires f <= 4
    ensures var raw := head + ([f] + filtered + rest) + trailing; var n := |head| + 1 + |filtered|;
            raw == head + [f] + filtered + rest + trailing && n <= |raw|
            && raw[|head|] == f && raw[|head| + 1..n] == filtered && |head + [f] + filtered| == n
  {
  }

  // ----- The first row

  lemma {:induction false} FirstRowAt(filter: nat, fb: nat, above: seq<byte>, raw: seq<byte>, i: nat)
    requires fb > 0 && filter <= 4 && |above| == |raw| && i < |raw|
    ensures ReconAt(FirstRow(filter), fb, above, raw, i) == ReconAt(filter, fb, Zeros(|raw|), raw, i)
    decreases i
  {
    hide Undo, FirstRow;
    if i >= fb { FirstRowAt(filter, fb, above, raw, i - fb); }
    var a: byte := if i < fb then 0 else ReconAt(filter, fb, Zeros(|raw|), raw, i - fb);
    FirstRowIsZeroRow(filter, raw[i], a, above[i], Left(above, fb, i));
  }

  /** The synthetic filters of the first row do what the ordinary ones do below zeros. */
  lemma FirstRowRecon(filter: nat, fb: nat, above: seq<byte>, raw: seq<byte>)
    requires fb > 0 && filter <= 4 && |above| == |raw|
    ensures Recon(FirstRow(filter), fb, above, raw) == Recon(filter, fb, Zeros(|raw|), raw)
  {
    hide ReconAt, FirstRow;
    var x, y := Recon(FirstRow(filter), fb, above, raw), Recon(filter, fb, Zeros(|raw|), raw);
    forall i | 0 <= i < |raw| ensures x[i] == y[i] {
      FirstRowAt(filter, fb, above, raw, i);
    }
  }

  // ----- Rows in the buffer

  /** The rows stand in the buffer from at to end, each right-aligned in stride bytes. */
  ghost predicate Stored(out: seq<byte>, at: nat, rows: seq<seq<byte>>, fb: nat, ob: nat, pad: nat, stride: nat, end: nat)
    requires 0 < fb <= ob && pad <= stride
    decreases |rows|
  {
    if rows == [] then at == end <= |out|
    else at + stride <= |out| && out[at + pad..at + stride] == Spread(rows[0], fb, ob)
         && Stored(out, at + stride, rows[1..], fb, ob, pad, stride, end)
  }

  lemma {:induction false} StoredRange(out: seq<byte>, at: nat, rows: seq<seq<byte>>, fb: nat, ob: nat, pad: nat, stride: nat, end: nat)
    requires 0 < fb <= ob && pad <= stride && Stored(out, at, rows, fb, ob, pad, stride, end)
    ensures at <= end <= |out|
    decreases |rows|
  {
    if rows != [] { StoredRange(out, at + stride, rows[1..], fb, ob, pad, stride, end); }
  }

  lemma {:induction false} StoredKept(out: seq<byte>, out': seq<byte>, at: nat, rows: seq<seq<byte>>,
                                      fb: nat, ob: nat, pad: nat, stride: nat, end: nat)
    requires 0 < fb <= ob && pad <= stride && Stored(out, at, rows, fb, ob, pad, stride, end)
    requires end <= |out| && end <= |out'| && out'[..end] == out[..end]
    ensures Stored(out', at, rows, fb, ob, pad, stride, end)
    decreases |rows|
  {
    hide Spread;
    if rows != [] {
      StoredRange(out, at + stride, rows[1..], fb, ob, pad, stride, end);
      assert out'[at + pad..at + stride] == out'[..end][at + pad..at + stride] == out[..end][at + pad..at + stride];
      StoredKept(out, out', at + stride, rows[1..], fb, ob, pad, stride, end);
    }
  }

  lemma {:induction false} StoredSnoc(out: seq<byte>, at: nat, rows: seq<seq<byte>>, row: seq<byte>,
                                      fb: nat, ob: nat, pad: nat, stride: nat, mid: nat)
    requires 0 < fb <= ob && pad <= stride && Stored(out, at, rows, fb, ob, pad, stride, mid)
    requires mid + stride <= |out| && out[mid + pad..mid + stride] == Spread(row, fb, ob)
    ensures Stored(out, at, rows + [row], fb, ob, pad, stride, mid + stride)
    decreases |rows|
  {
    hide Spread;
    var all := rows + [row];
    if rows == [] {
      assert all[1..] == [] && all[0] == row;
    } else {
      StoredSnoc(out, at + stride, rows[1..], row, fb, ob, pad, stride, mid);
      assert all[1..] == rows[1..] + [row];
    }
  }

  /** done rows, followed by the outcome for the rest. */
  ghost function Joined(done: seq<seq<byte>>, rest: Option<seq<seq<byte>>>): Option<seq<seq<byte>>> {
    match rest
    case None => None
    case Some(rows) => Some(done + rows)
  }

  /** How wide rows are: x pixels of fb bytes in the stream, of ob bytes in the buffer,
      where each row takes stride bytes. */
  ghost predicate Sizes(x: nat, fb: nat, ob: nat, rb: nat, pad: nat, stride: nat) {
    0 < fb <= ob && rb == x * fb && stride == pad + x * ob
  }

  /** Reconstructing row j: the next row of the stream ends up right-aligned in its stride. */
  method NextRow(out: array<byte>, raw: seq<byte>, r: nat, j: nat, at: nat, x: nat, fb: nat, ob: nat, rb: nat, pad: nat, stride: nat,
                 ghost above: seq<byte>) returns (ghost row: seq<byte>)
    requires Sizes(x, fb, ob, rb, pad, stride) && at + stride <= out.Length
    requires |above| == rb && r + 1 + rb <= |raw| && raw[r] <= 4
    requires if j == 0 then above == Zeros(rb) else at >= stride && out[at - stride + pad..at] == Spread(above, fb, ob)
    modifies out
    ensures row == Recon(raw[r], fb, above, raw[r + 1..r + 1 + rb])
    ensures out[at + pad..at + stride] == Spread(row, fb, ob) && out[..at + pad] == old(out[..at + pad])
  {
    hide Spread, Recon, FirstRow;
    var line := raw[r + 1..r + 1 + rb];
    row := Recon(raw[r], fb, above, line);
    ghost var before := out[..];
    var filter := if j == 0 then FirstRow(raw[r]) else raw[r];
    if j == 0 {
      FirstRowRecon(raw[r], fb, above, line);
      FirstRowNeedsNothing(raw[r]);
      AboveUnneeded(before, 0, at + pad, filter, above, fb, ob);
    } else {
      SpreadSize(above, fb, ob, x);
      AboveInPlace(before, at, pad, stride, filter, above, fb, ob);
    }
    Row(out, at + pad, if j == 0 then 0 else at + pad - stride, line, filter, fb, ob, x, above);
    RowInPlace(before, out[..], at + pad, Spread(row, fb, ob), at + stride);
    assert out[..at + pad] == out[..][..at + pad];
    assert out[at + pad..at + stride] == out[..][at + pad..at + stride];
  }

  lemma FirstRowNeedsNothing(filter: nat)
    requires filter <= 4
    ensures !NeedsAbove(FirstRow(filter)) && FirstRow(filter) <= 6
  {
  }

  lemma AboveUnneeded(out: seq<byte>, prior: nat, base: nat, filter: nat, above: seq<byte>, fb: nat, ob: nat)
    requires 0 < fb <= ob && !NeedsAbove(filter)
    ensures AboveAt(out, prior, base, filter, above, fb, ob)
  {
  }

  lemma AboveInPlace(out: seq<byte>, at: nat, pad: nat, stride: nat, filter: nat, above: seq<byte>, fb: nat, ob: nat)
    requires 0 < fb <= ob && pad <= stride <= at && at + stride <= |out|
    requires out[at - stride + pad..at] == Spread(above, fb, ob) && |Spread(above, fb, ob)| == stride - pad
    ensures AboveAt(out, at + pad - stride, at + pad, filter, above, fb, ob)
  {
    hide Spread;
  }

  lemma RowInPlace(before: seq<byte>, after: seq<byte>, base: nat, stored: seq<byte>, end: nat)
    requires base <= end <= |before| && |stored| == end - base && after == before[..base] + stored + before[end..]
    ensures after[..base] == before[..base] && after[base..end] == stored
  {
  }

  /** What holds between two rows: the rows so far stand in the buffer, and the outcome
      is theirs followed by that of the rest. */
  ghost predicate Between(out: seq<byte>, raw: seq<byte>, y: nat, j: nat, r: nat, at: nat, fb: nat, ob: nat, rb: nat, pad: nat,
                          stride: nat, rows: seq<seq<byte>>, above: seq<byte>)
  {
    && 0 < fb <= ob && pad <= stride && j <= y && |rows| == j && at == stride * j && r == (1 + rb) * j && |above| == rb
    && Stored(out, 0, rows, fb, ob, pad, stride, at)
    && Rows(raw, 0, y, rb, fb, Zeros(rb)) == Joined(rows, Rows(raw, r, y - j, rb, fb, above))
    && (if j == 0 then above == Zeros(rb)
        else stride <= at <= |out| && out[at - stride + pad..at] == Spread(above, fb, ob))
  }

  lemma BetweenStart(out: seq<byte>, raw: seq<byte>, y: nat, fb: nat, ob: nat, rb: nat, pad: nat, stride: nat)
    requires 0 < fb <= ob && pad <= stride
    ensures Between(out, raw, y, 0, 0, 0, fb, ob, rb, pad, stride, [], Zeros(rb))
  {
    hide Spread, Recon;
    StoredNone(out, fb, ob, pad, stride);
    var rest := Rows(raw, 0, y, rb, fb, Zeros(rb));
    if rest.Some? { assert [] + rest.value == rest.value; }
  }

  lemma BetweenStep(before: seq<byte>, after: seq<byte>, raw: seq<byte>, y: nat, j: nat, r: nat, at: nat, fb: nat, ob: nat, rb: nat,
                    pad: nat, stride: nat, rows: seq<seq<byte>>, above: seq<byte>, row: seq<byte>)
    requires Between(before, raw, y, j, r, at, fb, ob, rb, pad, stride, rows, above) && j < y
    requires r + 1 + rb <= |raw| && raw[r] <= 4 && row == Recon(raw[r], fb, above, raw[r + 1..r + 1 + rb])
    requires |after| == |before| && at + stride <= |after| && after[..at] == before[..at]
    requires after[at + pad..at + stride] == Spread(row, fb, ob)
    ensures Between(after, raw, y, j + 1, r + 1 + rb, at + stride, fb, ob, rb, pad, stride, rows + [row], row)
  {
    hide Spread, Recon;
    TimesUp(stride, j, y);
    TimesUp(1 + rb, j, y);
    StoredKept(before, after, 0, rows, fb, ob, pad, stride, at);
    StoredSnoc(after, 0, rows, row, fb, ob, pad, stride, at);
    JoinStep(rows, row, Rows(raw, r + 1 + rb, y - j - 1, rb, fb, row));
  }

  lemma BetweenEnd(out: seq<byte>, raw: seq<byte>, y: nat, r: nat, at: nat, fb: nat, ob: nat, rb: nat, pad: nat, stride: nat,
                   rows: seq<seq<byte>>, above: seq<byte>)
    requires Between(out, raw, y, y, r, at, fb, ob, rb, pad, stride, rows, above)
    ensures Rows(raw, 0, y, rb, fb, Zeros(rb)) == Some(rows) && |rows| == y
    ensures Stored(out, 0, rows, fb, ob, pad, stride, stride * y)
  {
    assert rows + [] == rows;
  }

  /** A filter type out of range spoils the whole image. */
  lemma BadFilter(out: seq<byte>, raw: seq<byte>, y: nat, j: nat, r: nat, at: nat, fb: nat, ob: nat, rb: nat, pad: nat, stride: nat,
                  rows: seq<seq<byte>>, above: seq<byte>)
    requires Between(out, raw, y, j, r, at, fb, ob, rb, pad, stride, rows, above) && j < y && r < |raw| && raw[r] > 4
    ensures Rows(raw, 0, y, rb, fb, Zeros(rb)) == None
  {
  }

  lemma BetweenRanges(out: seq<byte>, raw: seq<byte>, y: nat, j: nat, r: nat, at: nat, fb: nat, ob: nat, rb: nat, pad: nat,
                      stride: nat, rows: seq<seq<byte>>, above: seq<byte>)
    requires Between(out, raw, y, j, r, at, fb, ob, rb, pad, stride, rows, above) && j < y
    requires stride * y <= |out| && (1 + rb) * y <= |raw|
    ensures at + stride <= |out| && r + 1 + rb <= |raw| && |above| == rb
    ensures if j == 0 then above == Zeros(rb) else at >= stride && out[at - stride + pad..at] == Spread(above, fb, ob)
  {
    TimesUp(stride, j, y);
    TimesUp(1 + rb, j, y);
  }

  /** Reconstructs y rows. It fails exactly when a filter type is out of range. */
  method Defilter(out: array<byte>, raw: seq<byte>, y: nat, x: nat, fb: nat, ob: nat, rb: nat, pad: nat, stride: nat)
    returns (ok: bool, ghost rows: seq<seq<byte>>)
    requires Sizes(x, fb, ob, rb, pad, stride) && stride * y <= out.Length && (1 + rb) * y <= |raw|
    modifies out
    ensures Rows(raw, 0, y, rb, fb, Zeros(rb)) == if ok then Some(rows) else None
    ensures ok ==> |rows| == y && Stored(out[..], 0, rows, fb, ob, pad, stride, stride * y)
  {
    hide Spread, Recon, Stored, Between;
    ghost var above := Zeros(rb);
    rows := [];
    var j: nat, r: nat, at: nat := 0, 0, 0;
    BetweenStart(out[..], raw, y, fb, ob, rb, pad, stride);
    while j < y
      invariant 0 <= j <= y && Between(out[..], raw, y, j, r, at, fb, ob, rb, pad, stride, rows, above)
    {
      ghost var before := out[..];
      BetweenRanges(before, raw, y, j, r, at, fb, ob, rb, pad, stride, rows, above);
      if raw[r] > 4 {
        BadFilter(before, raw, y, j, r, at, fb, ob, rb, pad, stride, rows, above);
        return false, [];
      }
      assert j > 0 ==> out[at - stride + pad..at] == before[at - stride + pad..at];
      ghost var row := NextRow(out, raw, r, j, at, x, fb, ob, rb, pad, stride, above);
      assert out[..][..at] == out[..at + pad][..at] == before[..at + pad][..at] == before[..at];
      assert out[..][at + pad..at + stride] == out[at + pad..at + stride];
      BetweenStep(before, out[..], raw, y, j, r, at, fb, ob, rb, pad, stride, rows, above, row);
      rows, above := rows + [row], row;
      r, at, j := r + 1 + rb, at + stride, j + 1;
    }
    BetweenEnd(out[..], raw, y, r, at, fb, ob, rb, pad, stride, rows, above);
    ok := true;
  }

  lemma StoredNone(out: seq<byte>, fb: nat, ob: nat, pad: nat, stride: nat)
    requires 0 < fb <= ob && pad <= stride
    ensures Stored(out, 0, [], fb, ob, pad, stride, 0)
  {
  }

  lemma JoinStep(done: seq<seq<byte>>, row: seq<byte>, rest: Option<seq<seq<byte>>>)
    ensures Joined(done + [row], rest) == Joined(done, if rest.None? then None else Some([row] + rest.value))
  {
    if rest.Some? { assert done + [row] + rest.value == done + ([row] + rest.value); }
  }

  lemma TimesUp(d: nat, j: nat, y: nat)
    requires j < y
    ensures d * (j + 1) == d * j + d <= d * y
  {
    assert d * y == d * (j + 1) + d * (y - j - 1);
  }
}
