/** Rewriting the KEY file with another row width, in place. */
module Relayout {
  import opened Bytes
  import opened ByteFile

  /** Rows buffered before the first one is written; each later step reads one more row ahead. */
  function TableSize(n: nat, from: nat, to: nat): (size: nat)
    requires from > 0
    ensures size <= n
  {
    if to > from then Min(n, n * (to - from) / from + 8) else 0
  }

  /** The step that writes row `d` never catches up with the next row to read. */
  ghost predicate NeverClobbers(n: nat, from: nat, to: nat, ahead: nat) {
    forall d: nat :: ahead + d < n ==> d * to <= (ahead + d) * from
  }

  /** Reading `ahead` rows before writing is safe exactly when it is safe at the last row read. */
  lemma ClobberIff(n: nat, from: nat, to: nat, ahead: nat)
    requires ahead <= n
    ensures NeverClobbers(n, from, to, ahead) <==> ahead == n || (n - ahead - 1) * (to - from) <= ahead * from
  {
    if ahead < n {
      var last: nat := n - ahead - 1;
      if last * (to - from) <= ahead * from {
        forall d: nat | ahead + d < n ensures d * to <= (ahead + d) * from {
          StepFits(d, last, to - from, ahead * from);
          assert d * to == d * (to - from) + d * from;
        }
      } else {
        assert last * to == last * (to - from) + last * from;
        assert ahead + last < n && last * to > (ahead + last) * from;
      }
    }
  }

  lemma StepFits(d: nat, last: nat, diff: int, room: nat)
    requires d <= last && last * diff <= room
    ensures d * diff <= room
  {
    if diff > 0 {
      assert d * diff <= last * diff;
    } else {
      assert d * diff <= 0;
    }
  }

  /** The buffer the formula asks for is large enough, whatever the widths and the number of rows. */
  lemma TableSuffices(n: nat, from: nat, to: nat)
    requires from > 0
    ensures NeverClobbers(n, from, to, TableSize(n, from, to))
  {
    var t := TableSize(n, from, to);
    ClobberIff(n, from, to, t);
    if to > from {
      if t < n {
        EnoughAhead(n, from, to - from, 8);
      }
    } else {
      assert (n - 1) * (to - from) <= 0 || n == 0;
    }
  }

  /** And no larger than the growth of the file in rows, with eight rows of slack; rows that do not grow need none. */
  lemma TableBounded(n: nat, from: nat, to: nat)
    requires from > 0
    ensures if to <= from then TableSize(n, from, to) == 0 else TableSize(n, from, to) <= n * (to - from) / from + 8
  {
  }

  /** One row more than the rounded-down quotient would already do. */
  lemma EnoughAhead(n: nat, from: nat, diff: nat, slack: nat)
    requires from > 0 && slack > 0 && n * diff / from + slack < n
    ensures (n - (n * diff / from + slack) - 1) * diff <= (n * diff / from + slack) * from
  {
    var q := n * diff / from;
    assert n * diff == q * from + n * diff % from;
    assert (q + slack) * from == q * from + slack * from;
    assert slack * from >= from;
    assert (n - (q + slack) - 1) * diff <= n * diff by {
      assert n * diff - (n - (q + slack) - 1) * diff == (q + slack + 1) * diff;
    }
  }

  /** The rounded-down quotient alone is too little: seven rows widened from 8 to 9 bytes. */
  lemma QuotientAloneClobbers()
    ensures !NeverClobbers(7, 8, 9, 7 * (9 - 8) / 8)
  {
    ClobberIff(7, 8, 9, 0);
  }

  /** Row `i` of a file of `width`-byte rows behind a header. */
  function RowAt(file: seq<byte>, header: nat, width: nat, i: nat): seq<byte>
    requires header + i * width + width <= |file|
  {
    file[header + i * width..header + i * width + width]
  }

  lemma RowFits(n: nat, width: nat, i: nat)
    requires i < n
    ensures i * width + width <= n * width
  {
    assert (i + 1) * width <= n * width;
  }

  /** How the old codec reads a row, and what the new one stores for row `i`. */
  datatype Codec<!R> = Codec(load: seq<byte> -> R, store: (nat, R) -> seq<byte>)

  /** A KEY file of `n` rows to be rewritten from one row width to another behind its header. */
  datatype Task = Task(was: seq<byte>, header: nat, from: nat, to: nat, n: nat)

  predicate TaskOk(t: Task) {
    t.from > 0 && t.to > 0 && t.header + t.n * t.from <= |t.was|
  }

  function OldRow(t: Task, i: nat): (row: seq<byte>)
    requires TaskOk(t) && i < t.n
    ensures |row| == t.from
  {
    RowFits(t.n, t.from, i);
    RowAt(t.was, t.header, t.from, i)
  }

  /** The new bytes of row `i`. */
  function NewRow<R>(t: Task, c: Codec<R>, i: nat): seq<byte>
    requires TaskOk(t) && i < t.n
  {
    c.store(i, c.load(OldRow(t, i)))
  }

  /** The new width was chosen so that every row fits. */
  ghost predicate Fits<R>(t: Task, c: Codec<R>)
    requires TaskOk(t)
  {
    forall i: nat :: i < t.n ==> |NewRow(t, c, i)| == t.to
  }

  /** The first `d` rows stand converted, in order, behind an unchanged header. */
  ghost predicate Converted<R>(t: Task, c: Codec<R>, now: seq<byte>, d: nat)
    requires TaskOk(t)
  {
    && d <= t.n && |now| >= t.header + d * t.to
    && now[..t.header] == t.was[..t.header]
    && forall i: nat :: i < d ==> ConvertedRow(t, c, now, i)
  }

  ghost predicate ConvertedRow<R>(t: Task, c: Codec<R>, now: seq<byte>, i: nat)
    requires TaskOk(t) && i < t.n
  {
    t.header + i * t.to + t.to <= |now| && RowAt(now, t.header, t.to, i) == NewRow(t, c, i)
  }

  /** Nothing behind the rows written so far has been touched. */
  ghost predicate Untouched(t: Task, now: seq<byte>, d: nat) {
    |now| >= |t.was| && forall p :: t.header + d * t.to <= p < |t.was| ==> now[p] == t.was[p]
  }

  /** The table holds the decoded rows already read and not yet written. */
  ghost predicate Buffered<R>(t: Task, c: Codec<R>, table: map<nat, R>, d: nat, src: nat)
    requires TaskOk(t)
  {
    && d <= src <= t.n && (forall i: nat :: i in table <==> d <= i < src)
    && forall i: nat :: d <= i < src ==> table[i] == c.load(OldRow(t, i))
  }

  /** A row lying behind everything written so far still reads as in the old file. */
  lemma ReadsOld(t: Task, now: seq<byte>, d: nat, src: nat)
    requires TaskOk(t) && Untouched(t, now, d) && src < t.n && d * t.to <= src * t.from
    ensures t.header + src * t.from + t.from <= |now| && RowAt(now, t.header, t.from, src) == OldRow(t, src)
  {
    RowFits(t.n, t.from, src);
  }

  /** The file once row `d` is written at its new place. */
  function Written<R>(t: Task, c: Codec<R>, now: seq<byte>, d: nat): seq<byte>
    requires TaskOk(t) && d < t.n
  {
    Splice(now, t.header + d * t.to, NewRow(t, c, d))
  }

  lemma RowKept<R>(t: Task, c: Codec<R>, now: seq<byte>, d: nat, i: nat)
    requires TaskOk(t) && i < d < t.n && t.header + d * t.to <= |now| && ConvertedRow(t, c, now, i)
    ensures ConvertedRow(t, c, Written(t, c, now, d), i)
  {
    RowFits(d, t.to, i);
    SliceKept(now, t.header + d * t.to, NewRow(t, c, d), t.header + i * t.to, t.header + i * t.to + t.to);
  }

  lemma SliceKept(now: seq<byte>, at: nat, row: seq<byte>, lo: nat, hi: nat)
    requires lo <= hi <= at <= |now|
    ensures hi <= |Splice(now, at, row)| && Splice(now, at, row)[lo..hi] == now[lo..hi]
  {
  }

  lemma RowPlaced<R>(t: Task, c: Codec<R>, now: seq<byte>, d: nat)
    requires TaskOk(t) && d < t.n && t.header + d * t.to <= |now| && |NewRow(t, c, d)| == t.to
    ensures ConvertedRow(t, c, Written(t, c, now, d), d)
  {
    hide NewRow, OldRow, Splice;
    SpliceReads(now, t.header + d * t.to, NewRow(t, c, d));
  }

  lemma NextPlace(d: nat, width: nat)
    ensures (d + 1) * width == d * width + width
  {
  }

  lemma SpliceBehind(now: seq<byte>, at: nat, row: seq<byte>, size: nat)
    requires at <= |now| && size <= |now|
    ensures size <= |Splice(now, at, row)|
    ensures forall p :: at + |row| <= p < size ==> Splice(now, at, row)[p] == now[p]
  {
  }

  lemma WritesRows<R>(t: Task, c: Codec<R>, now: seq<byte>, d: nat)
    requires TaskOk(t) && Fits(t, c) && d < t.n && Converted(t, c, now, d)
    ensures forall i: nat :: i < d + 1 ==> ConvertedRow(t, c, Written(t, c, now, d), i)
  {
    hide NewRow, OldRow, Written, ConvertedRow;
    RowPlaced(t, c, now, d);
    forall i: nat | i < d ensures ConvertedRow(t, c, Written(t, c, now, d), i) {
      assert ConvertedRow(t, c, now, i);
      RowKept(t, c, now, d, i);
    }
  }

  /** Writing row `d` at its new place converts it and leaves the rest as it is. */
  lemma WritesNew<R>(t: Task, c: Codec<R>, now: seq<byte>, d: nat)
    requires TaskOk(t) && Fits(t, c) && d < t.n && Converted(t, c, now, d) && Untouched(t, now, d)
    ensures Converted(t, c, Written(t, c, now, d), d + 1) && Untouched(t, Written(t, c, now, d), d + 1)
  {
    hide NewRow, OldRow, ConvertedRow;
    NextPlace(d, t.to);
    WritesRows(t, c, now, d);
    SliceKept(now, t.header + d * t.to, NewRow(t, c, d), 0, t.header);
    SpliceBehind(now, t.header + d * t.to, NewRow(t, c, d), |t.was|);
  }

  /** Between two steps: the rows before `d` stand converted, those up to `src` are held in the table. */
  ghost predicate Rewriting<R>(t: Task, c: Codec<R>, now: seq<byte>, table: map<nat, R>, d: nat, src: nat, ahead: nat) {
    && TaskOk(t) && Fits(t, c) && src == Min(t.n, ahead + d) && NeverClobbers(t.n, t.from, t.to, ahead)
    && Buffered(t, c, table, d, src) && Converted(t, c, now, d) && Untouched(t, now, d)
  }

  /** The row about to be read has not been written over. */
  lemma RowAhead<R>(t: Task, c: Codec<R>, now: seq<byte>, table: map<nat, R>, d: nat, src: nat, ahead: nat)
    requires Rewriting(t, c, now, table, d, src, ahead) && src < t.n
    ensures t.header + src * t.from + t.from <= |now| && RowAt(now, t.header, t.from, src) == OldRow(t, src)
    ensures Buffered(t, c, table[src := c.load(OldRow(t, src))], d, src + 1)
  {
    ReadsOld(t, now, d, src);
  }

  lemma TakesRow<R>(t: Task, c: Codec<R>, table: map<nat, R>, d: nat, src: nat)
    requires TaskOk(t) && Buffered(t, c, table, d, src) && d < src
    ensures d in table && c.store(d, table[d]) == NewRow(t, c, d)
    ensures Buffered(t, c, table - {d}, d + 1, src)
  {
  }

  lemma Trimmed<R>(t: Task, c: Codec<R>, now: seq<byte>)
    requires TaskOk(t) && Converted(t, c, now, t.n)
    ensures Converted(t, c, now[..t.header + t.n * t.to], t.n)
  {
    var size := t.header + t.n * t.to;
    assert now[..size][..t.header] == now[..t.header];
    forall i: nat | i < t.n ensures ConvertedRow(t, c, now[..size], i) {
      assert ConvertedRow(t, c, now, i);
      RowFits(t.n, t.to, i);
      var lo := t.header + i * t.to;
      assert now[..size][lo..lo + t.to] == now[lo..lo + t.to];
    }
  }

  /** Reads the first `ahead` rows into the table. */
  method FillTable<R>(file: JBytesIO, header: nat, from: nat, ahead: nat, c: Codec<R>, ghost t: Task) returns (table: map<nat, R>)
    requires TaskOk(t) && t.was == file.buf && t.header == header && t.from == from && ahead <= t.n
    modifies file`idx
    ensures Buffered(t, c, table, 0, ahead)
    ensures ahead == 0 ==> file.idx == header
  {
    table := map[];
    var _ := file.Seek(header);
    var src := 0;
    while src < ahead
      invariant src <= ahead && Buffered(t, c, table, 0, src)
      invariant src == 0 ==> file.idx == header
    {
      RowFits(t.n, from, src);
      var row := ReadRow(file, header, from, src);
      table := table[src := c.load(row)];
      src := src + 1;
      assert Buffered(t, c, table, 0, src);
    }
  }

  /** The first half of a step: one more row is read ahead, unless all are in the table. */
  method ReadAhead<R>(file: JBytesIO, c: Codec<R>, table: map<nat, R>, src: nat, header: nat, from: nat, n: nat,
                      ghost t: Task, ghost d: nat, ghost ahead: nat)
    returns (table': map<nat, R>, src': nat)
    requires Rewriting(t, c, file.buf, table, d, src, ahead) && d < n
    requires t.header == header && t.from == from && t.n == n
    modifies file`idx
    ensures src' == Min(n, ahead + d + 1) && Buffered(t, c, table', d, src')
  {
    table', src' := table, src;
    if src < n {
      RowAhead(t, c, file.buf, table, d, src, ahead);
      var row := ReadRow(file, header, from, src);
      table' := table[src := c.load(row)];
      src' := src + 1;
    }
  }

  /** The second half: row `d` leaves the table for its new place. */
  method WriteRow<R>(file: JBytesIO, c: Codec<R>, table: map<nat, R>, d: nat, header: nat, to: nat, ghost t: Task, ghost src: nat)
    returns (table': map<nat, R>)
    requires TaskOk(t) && Fits(t, c) && d < src && Buffered(t, c, table, d, src) && t.header == header && t.to == to
    requires Converted(t, c, file.buf, d) && Untouched(t, file.buf, d)
    modifies file
    ensures Buffered(t, c, table', d + 1, src)
    ensures Converted(t, c, file.buf, d + 1) && Untouched(t, file.buf, d + 1)
    ensures file.idx == header + (d + 1) * to
  {
    TakesRow(t, c, table, d, src);
    WritesNew(t, c, file.buf, d);
    table' := table - {d};
    PutRow(file, header, to, d, c.store(d, table[d]));
  }

  method PutRow(file: JBytesIO, header: nat, width: nat, i: nat, row: seq<byte>)
    requires |row| == width
    modifies file
    ensures file.buf == Splice(old(file.buf), header + i * width, row)
    ensures file.idx == header + (i + 1) * width
  {
    var _ := file.Seek(header + i * width);
    var _ := file.Write(row);
    NextPlace(i, width);
  }

  /** change_KEY: the rows move to their new places front to back, a bounded number of rows being held in
      memory; whatever the widths, the file ends up as the header and the converted rows, and nothing else. */
  method Rebuild<R>(file: JBytesIO, header: nat, from: nat, to: nat, n: nat, c: Codec<R>)
    requires TaskOk(Task(file.buf, header, from, to, n)) && Fits(Task(file.buf, header, from, to, n), c)
    modifies file
    ensures Converted(Task(old(file.buf), header, from, to, n), c, file.buf, n)
    ensures |file.buf| == header + n * to
  {
    ghost var t := Task(file.buf, header, from, to, n);
    var ahead := TableSize(n, from, to);
    TableSuffices(n, from, to);
    var table := FillTable(file, header, from, ahead, c, t);
    var src, dst := ahead, 0;
    while dst < n
      invariant dst <= n && (dst > 0 || n == 0 ==> file.idx == header + dst * to)
      invariant Rewriting(t, c, file.buf, table, dst, src, ahead)
    {
      table, src := ReadAhead(file, c, table, src, header, from, n, t, dst, ahead);
      table := WriteRow(file, c, table, dst, header, to, t, src);
      dst := dst + 1;
      assert Rewriting(t, c, file.buf, table, dst, src, ahead);
    }
    Trimmed(t, c, file.buf);
    file.Truncate();
  }

  method ReadRow(file: JBytesIO, header: nat, width: nat, i: nat) returns (row: seq<byte>)
    requires width > 0 && header + i * width + width <= |file.buf|
    modifies file`idx
    ensures row == RowAt(file.buf, header, width, i)
  {
    var _ := file.Seek(header + i * width);
    row := file.Read(width);
  }
}
