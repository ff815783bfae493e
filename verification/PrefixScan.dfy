/** Prefix scans: the exclusive end of a prefix range, and the paging loop that collects one. */
module PrefixScan {
  import opened Basics

  type Key = seq<byte>

  // ---- the order of keys ----------------------------------------------------------------------------

  predicate Less(a: Key, b: Key) {
    b != [] && (a == [] || a[0] < b[0] || (a[0] == b[0] && Less(a[1..], b[1..])))
  }

  predicate AtMost(a: Key, b: Key) {
    a == b || Less(a, b)
  }

  /** The range a server scans: from `start`, up to but not including `end` if there is one. */
  predicate InRange(k: Key, start: Key, end: Option<Key>) {
    AtMost(start, k) && (end.Some? ==> Less(k, end.value))
  }

  // ---- prefix_end -----------------------------------------------------------------------------------

  /** Drop trailing 0xFF bytes and increment the last remaining one; none remaining means no bound. */
  function PrefixEnd(p: Key): Option<Key> {
    if p == [] then None
    else if p[|p| - 1] < 255 then Some(p[..|p| - 1] + [p[|p| - 1] + 1])
    else PrefixEnd(p[..|p| - 1])
  }

  method ComputePrefixEnd(p: Key) returns (r: Option<Key>)
    ensures r == PrefixEnd(p)
  {
    var end := p;
    while end != []
      invariant PrefixEnd(end) == PrefixEnd(p)
      decreases |end|
    {
      var last := |end| - 1;
      if end[last] < 255 {
        end := end[last := end[last] + 1];
        assert end == end[..last] + [end[last]];
        return Some(end);
      }
      end := end[..last];
    }
    return None;
  }

  /** The etcd form, where the single zero byte stands for "no upper bound". */
  method EtcdPrefixEnd(p: Key) returns (r: Key)
    ensures PrefixEnd(p).Some? ==> r == PrefixEnd(p).value
    ensures r == [0] <==> PrefixEnd(p).None?
  {
    var bytes := p;
    while bytes != []
      invariant PrefixEnd(bytes) == PrefixEnd(p)
      decreases |bytes|
    {
      var last := |bytes| - 1;
      if bytes[last] == 255 {
        bytes := bytes[..last];
      } else {
        bytes := bytes[last := bytes[last] + 1];
        assert bytes == bytes[..last] + [bytes[last]];
        assert bytes[last] >= 1;
        return bytes;
      }
    }
    return [0];
  }

  /** `i` is the first difference; the smaller one ends there or is smaller there. */
  ghost predicate SmallerAt(a: Key, b: Key, i: int) {
    0 <= i <= |a| && i < |b| && a[..i] == b[..i] && (i == |a| || a[i] < b[i])
  }

  /** The order is that of dictionaries. */
  lemma {:induction false} LessIff(a: Key, b: Key)
    ensures Less(a, b) <==> exists i :: SmallerAt(a, b, i)
    decreases |a|
  {
    if a == [] {
      if b != [] {
        assert SmallerAt(a, b, 0);
      }
    } else if b != [] {
      if a[0] == b[0] {
        LessIff(a[1..], b[1..]);
        if i :| SmallerAt(a[1..], b[1..], i) {
          assert a[..i + 1] == [a[0]] + a[1..][..i] && b[..i + 1] == [b[0]] + b[1..][..i];
          assert SmallerAt(a, b, i + 1);
        }
        if i :| SmallerAt(a, b, i) {
          assert i > 0;
          assert a[1..][..i - 1] == a[..i][1..] && b[1..][..i - 1] == b[..i][1..];
          assert SmallerAt(a[1..], b[1..], i - 1);
        }
      } else {
        assert a[..0] == b[..0];
        assert SmallerAt(a, b, 0) <==> a[0] < b[0];
        assert forall i | 0 < i <= |a| && i < |b| :: a[..i][0] == a[0] && b[..i][0] == b[0];
      }
    }
  }

  lemma {:induction false} SuccessorRange(q: Key, b: byte, k: Key)
    requires b < 255
    ensures q + [b] <= k <==> AtMost(q + [b], k) && Less(k, q + [b + 1])
    decreases |q|
  {
    if q == [] {
      assert q + [b] == [b] && q + [b + 1] == [b + 1];
      assert [b][1..] == [] && [b + 1][1..] == [];
      if k != [] {
        assert k == [k[0]] + k[1..];
        assert [b] <= k <==> k[0] == b;
        assert [b] == k <==> k[0] == b && k[1..] == [];
        assert Less([b], k) <==> b < k[0] || (b == k[0] && Less([], k[1..]));
        assert Less(k, [b + 1]) <==> k[0] <= b || (k[0] == b + 1 && Less(k[1..], []));
      }
    } else if k != [] && k[0] == q[0] {
      SuccessorRange(q[1..], b, k[1..]);
      assert (q + [b])[1..] == q[1..] + [b] && (q + [b + 1])[1..] == q[1..] + [b + 1];
      assert q + [b] <= k <==> q[1..] + [b] <= k[1..] by {
        assert q + [b] == [q[0]] + (q[1..] + [b]) && k == [k[0]] + k[1..];
      }
      assert AtMost(q + [b], k) <==> AtMost(q[1..] + [b], k[1..]) by {
        assert q + [b] == [q[0]] + (q[1..] + [b]) && k == [k[0]] + k[1..];
      }
    }
  }

  lemma {:induction false} ExtensionIsLater(q: Key, x: Key)
    ensures AtMost(q, q + x)
    ensures x != [] ==> Less(q, q + x)
    decreases |q|
  {
    if q != [] {
      ExtensionIsLater(q[1..], x);
      assert (q + x)[1..] == q[1..] + x;
    } else {
      assert q + x == x;
    }
  }

  lemma {:induction false} LessTransitive(a: Key, b: Key, c: Key)
    requires Less(a, b) && Less(b, c)
    ensures Less(a, c)
    decreases |a|
  {
    if a != [] && a[0] == b[0] && b[0] == c[0] {
      LessTransitive(a[1..], b[1..], c[1..]);
    }
  }

  lemma {:induction false} CommonPrefix(q: Key, x: Key, y: Key)
    ensures Less(q + x, q + y) <==> Less(x, y)
    decreases |q|
  {
    if q == [] {
      assert q + x == x && q + y == y;
    } else {
      CommonPrefix(q[1..], x, y);
      assert (q + x)[1..] == q[1..] + x && (q + y)[1..] == q[1..] + y;
    }
  }

  /** Appending 0xFF narrows the range from below and keeps its end. */
  lemma MaxByteRange(q: Key, k: Key, end: Option<Key>)
    requires q <= k <==> InRange(k, q, end)
    ensures q + [255] <= k <==> InRange(k, q + [255], end)
  {
    var p := q + [255];
    ExtensionIsLater(q, [255]);
    if Less(p, k) {
      LessTransitive(q, p, k);
    }
    if q <= k {
      var rest := k[|q|..];
      assert k == q + rest;
      CommonPrefix(q, [255], rest);
      MaxByteFirst(rest);
      hide Less;
      assert p == k <==> rest == [255];
      assert p <= k <==> [255] <= rest;
    }
  }

  lemma MaxByteFirst(rest: Key)
    ensures [255] <= rest <==> rest == [255] || Less([255], rest)
  {
    if rest != [] {
      assert rest == [rest[0]] + rest[1..] && [255][1..] == [];
      assert [255] <= rest <==> rest[0] == 255;
      assert Less([255], rest) <==> rest[0] == 255 && Less([], rest[1..]);
    }
  }

  /** The range is exact: a key lies in it exactly when it starts with the prefix. */
  lemma {:induction false} PrefixRangeIsExact(p: Key, k: Key)
    ensures p <= k <==> InRange(k, p, PrefixEnd(p))
    decreases |p|
  {
    if p == [] {
      assert AtMost(p, k);
    } else {
      hide Less;
      var q, b := p[..|p| - 1], p[|p| - 1];
      assert p == q + [b];
      if b < 255 {
        SuccessorRange(q, b, k);
      } else {
        PrefixRangeIsExact(q, k);
        MaxByteRange(q, k, PrefixEnd(q));
      }
    }
  }

  /** An end is never the etcd sentinel: it is a non-empty key whose last byte was incremented. */
  lemma {:induction false} EndIsNotSentinel(p: Key)
    ensures PrefixEnd(p) != Some([0])
    decreases |p|
  {
    if p != [] {
      if p[|p| - 1] == 255 {
        EndIsNotSentinel(p[..|p| - 1]);
      } else {
        assert PrefixEnd(p).value[|p| - 1] >= 1;
      }
    }
  }

  // ---- the paging loop ------------------------------------------------------------------------------

  datatype Row = Row(key: Key, cells: string)

  /** An answer of the scanner: the end (no content, or an empty page), rows, or an error. */
  datatype Response = NoContent | Page(rows: seq<Row>) | Failed

  datatype Result = Ok(rows: seq<Row>) | Err

  predicate Ends(r: Response) {
    r.NoContent? || (r.Page? && r.rows == [])
  }

  /** The rows of the first body and of the first `n` pages. */
  function Received(first: seq<Row>, pages: nat -> Response, n: nat): seq<Row> {
    if n == 0 then first
    else Received(first, pages, n - 1) + if pages(n - 1).Page? then pages(n - 1).rows else []
  }

  /** `rows` is what `n` pages bring, cut at the limit; unless it is reached the scanner has ended. */
  ghost predicate Collected(first: seq<Row>, pages: nat -> Response, limit: nat, n: nat, rows: seq<Row>) {
    && (forall i | 0 <= i < n :: pages(i).Page? && pages(i).rows != [])
    && (|Received(first, pages, n)| < limit ==> Ends(pages(n)))
    && rows == Truncated(Received(first, pages, n), limit)
  }

  /** `collect_scanner`: pages are fetched until the limit is reached or the scanner ends.  At most
      `limit` pages are fetched, whatever the gateway answers. */
  method CollectScanner(first: seq<Row>, pages: nat -> Response, limit: nat) returns (r: Result, fetched: nat)
    ensures fetched <= limit
    ensures r.Ok? ==> exists n: nat :: n <= fetched <= n + 1 && Collected(first, pages, limit, n, r.rows)
    ensures r.Err? ==> fetched > 0 && pages(fetched - 1).Failed?
  {
    var rows := first;
    fetched := 0;
    while |rows| < limit
      invariant rows == Received(first, pages, fetched) && fetched <= |rows|
      invariant |rows| < limit || fetched <= limit
      invariant forall i | 0 <= i < fetched :: pages(i).Page? && pages(i).rows != []
      decreases limit - |rows|
    {
      var response := pages(fetched);
      fetched := fetched + 1;
      if Ends(response) {
        assert Collected(first, pages, limit, fetched - 1, Truncated(rows, limit));
        return Ok(Truncated(rows, limit)), fetched;
      }
      if response.Failed? {
        return Err, fetched;
      }
      rows := rows + response.rows;
    }
    assert Collected(first, pages, limit, fetched, Truncated(rows, limit));
    return Ok(Truncated(rows, limit)), fetched;
  }

  function Truncated(rows: seq<Row>, limit: nat): seq<Row> {
    if |rows| <= limit then rows else rows[..limit]
  }

  // ---- scan -------------------------------------------------------------------------------------------

  function Matching(table: seq<Row>, start: Key, end: Option<Key>): seq<Row> {
    if table == [] then []
    else if InRange(table[0].key, start, end) then [table[0]] + Matching(table[1..], start, end)
    else Matching(table[1..], start, end)
  }

  function WithPrefix(table: seq<Row>, prefix: Key): seq<Row> {
    if table == [] then []
    else if prefix <= table[0].key then [table[0]] + WithPrefix(table[1..], prefix)
    else WithPrefix(table[1..], prefix)
  }

  lemma {:induction false} RangeSelectsPrefix(table: seq<Row>, prefix: Key)
    ensures Matching(table, prefix, PrefixEnd(prefix)) == WithPrefix(table, prefix)
    decreases |table|
  {
    if table != [] {
      PrefixRangeIsExact(prefix, table[0].key);
      RangeSelectsPrefix(table[1..], prefix);
    }
  }

  /** A gateway that serves `rows` in order, cut into non-empty pages of any size. */
  ghost predicate Serves(first: seq<Row>, pages: nat -> Response, rows: seq<Row>) {
    forall n: nat ::
      Received(first, pages, n) <= rows && !pages(n).Failed? && (Ends(pages(n)) ==> Received(first, pages, n) == rows)
  }

  datatype Session = Session(first: seq<Row>, pages: nat -> Response)

  /** Asked for any range, the gateway serves the rows of its table that lie in it. */
  ghost predicate Faithful(open: (Key, Option<Key>) -> Session, table: seq<Row>) {
    forall start, end :: Serves(open(start, end).first, open(start, end).pages, Matching(table, start, end))
  }

  const DEFAULT_LIMIT: nat := 1000

  /** `scan`: whatever the gateway answers, at most `limit` pages are fetched, an error stems from a
      failed page, and the rows are the received ones cut at the limit.  Against a gateway that serves
      the requested range of its table they are exactly the first `limit` rows whose key has the prefix. */
  method Scan(open: (Key, Option<Key>) -> Session, prefix: Key, limit: nat, ghost table: seq<Row>)
    returns (r: Result, fetched: nat)
    ensures var bound := if limit == 0 then 1000 else limit;
            var session := open(prefix, PrefixEnd(prefix));
            && fetched <= bound
            && (r.Ok? ==>
                exists n: nat :: n <= fetched <= n + 1 && Collected(session.first, session.pages, bound, n, r.rows))
            && (r.Err? ==> fetched > 0 && session.pages(fetched - 1).Failed?)
            && (Faithful(open, table) ==> r == Ok(Truncated(WithPrefix(table, prefix), bound)))
  {
    hide Serves, Matching, WithPrefix, PrefixEnd, Received, Collected, Truncated;
    var bound := if limit == 0 then DEFAULT_LIMIT else limit;
    var end := ComputePrefixEnd(prefix);
    var session := open(prefix, end);
    r, fetched := CollectScanner(session.first, session.pages, bound);
    if Faithful(open, table) {
      RangeSelectsPrefix(table, prefix);
      ServedResult(session, WithPrefix(table, prefix), bound, r, fetched);
    }
  }

  lemma ServedResult(session: Session, rows: seq<Row>, limit: nat, r: Result, fetched: nat)
    requires Serves(session.first, session.pages, rows)
    requires r.Ok? ==> exists n: nat :: Collected(session.first, session.pages, limit, n, r.rows)
    requires r.Err? ==> fetched > 0 && session.pages(fetched - 1).Failed?
    ensures r == Ok(Truncated(rows, limit))
  {
    hide Serves, Received;
    if r.Ok? {
      var n: nat :| Collected(session.first, session.pages, limit, n, r.rows);
      ServesAt(session.first, session.pages, rows, n);
    } else {
      ServesAt(session.first, session.pages, rows, fetched - 1);
    }
  }

  lemma ServesAt(first: seq<Row>, pages: nat -> Response, rows: seq<Row>, n: nat)
    requires Serves(first, pages, rows)
    ensures Received(first, pages, n) <= rows && !pages(n).Failed?
    ensures Ends(pages(n)) ==> Received(first, pages, n) == rows
  {
  }
}
