/**
 * The export script: it reads a catalog of forms from a bootstrap project,
 * enumerates the distinct record ids of the data project, asks for the form's
 * data in chunks of at most 50 ids, and writes the CSV chunks to one file per
 * form with the header of the first chunk only.
 *
 * The remote project is abstract: a reply is either the data the service
 * returns or a `RedcapError`, and the chunked request is a function from a
 * list of record ids to such a reply.
 */
module AdcExport {
  import opened Paths
  import opened Seqs

  datatype Option<T> = None | Some(value: T)

  /** The reply of one `export_records` call. */
  datatype Fetched<T> = Got(value: T) | RedcapError

  // ---------------------------------------------------------------------
  // Strings
  // ---------------------------------------------------------------------

  /** `s.split(sep)`: the pieces between the separators, at least one. */
  function Split(s: string, sep: char): (parts: seq<string>)
    ensures |parts| >= 1
    ensures forall k :: 0 <= k < |parts| ==> sep !in parts[k]
  {
    if s == [] then [[]]
    else
      var rest := Split(s[1..], sep);
      if s[0] == sep then [[]] + rest
      else [[s[0]] + rest[0]] + rest[1..]
  }

  /** `sep.join(parts)`. */
  function JoinWith(parts: seq<string>, sep: char): string
  {
    if parts == [] then []
    else if |parts| == 1 then parts[0]
    else parts[0] + [sep] + JoinWith(parts[1..], sep)
  }

  /** Joining the pieces of a split gives the string back. */
  lemma {:induction false} JoinSplit(s: string, sep: char)
    ensures JoinWith(Split(s, sep), sep) == s
  {
    if s != [] {
      JoinSplit(s[1..], sep);
      var rest := Split(s[1..], sep);
      if s[0] != sep {
        if |rest| == 1 {
          assert Split(s, sep) == [[s[0]] + rest[0]];
        } else {
          assert Split(s, sep)[1..] == rest[1..];
        }
      }
    }
  }

  /** Splitting a join of separator-free pieces gives the pieces back. */
  lemma {:induction false} SplitJoin(parts: seq<string>, sep: char)
    requires |parts| >= 1
    requires forall k :: 0 <= k < |parts| ==> sep !in parts[k]
    ensures Split(JoinWith(parts, sep), sep) == parts
  {
    if |parts| == 1 {
      SplitPiece(parts[0], [], sep);
      assert parts[0] + [] == parts[0];
    } else {
      SplitJoin(parts[1..], sep);
      SplitPiece(parts[0], JoinWith(parts[1..], sep), sep);
      assert [parts[0]] + parts[1..] == parts;
    }
  }

  /** A separator-free prefix becomes the head of the first piece. */
  lemma {:induction false} SplitPrefix(w: string, tail: string, sep: char)
    requires sep !in w
    ensures Split(w + tail, sep) == [w + Split(tail, sep)[0]] + Split(tail, sep)[1..]
  {
    if w != [] {
      SplitPrefix(w[1..], tail, sep);
      var t := Split(tail, sep);
      assert w[0] in w;
      assert w + tail == [w[0]] + (w[1..] + tail);
      SplitCons(w[0], w[1..] + tail, sep);
      assert [w[0]] + (w[1..] + t[0]) == w + t[0];
    } else {
      var t := Split(tail, sep);
      assert w + tail == tail;
      assert t == [t[0]] + t[1..] && w + t[0] == t[0];
    }
  }

  lemma SplitCons(c: char, rest: string, sep: char)
    requires c != sep
    ensures Split([c] + rest, sep) == [[c] + Split(rest, sep)[0]] + Split(rest, sep)[1..]
  {
    assert ([c] + rest)[0] == c && ([c] + rest)[1..] == rest;
  }

  /** A separator-free prefix, and then a separator, make a whole first piece. */
  lemma SplitPiece(w: string, tail: string, sep: char)
    requires sep !in w
    ensures Split(w + tail, sep) == [w + Split(tail, sep)[0]] + Split(tail, sep)[1..]
    ensures Split(w + [sep] + tail, sep) == [w] + Split(tail, sep)
  {
    SplitPrefix(w, tail, sep);
    var st := [sep] + tail;
    SplitPrefix(w, st, sep);
    assert w + [sep] + tail == w + st;
    assert st[0] == sep && st[1..] == tail;
    assert Split(st, sep) == [[]] + Split(tail, sep);
    assert w + [] == w;
  }

  /** `s.split(sep, 1)`: one piece when `sep` does not occur, else two. */
  function SplitOnce(s: string, sep: char): (parts: seq<string>)
    ensures 1 <= |parts| <= 2
    ensures |parts| == 1 <==> sep !in s
    ensures |parts| == 1 ==> parts[0] == s
    ensures |parts| == 2 ==> sep !in parts[0] && s == parts[0] + [sep] + parts[1]
  {
    if s == [] then [s]
    else if s[0] == sep then [[], s[1..]]
    else
      var rest := SplitOnce(s[1..], sep);
      assert s == [s[0]] + s[1..];
      if |rest| == 1 then [s] else [[s[0]] + rest[0], rest[1]]
  }

  /** The concatenation of a list of strings. */
  function Concat(xs: seq<string>): string
  {
    if xs == [] then [] else Concat(xs[..|xs| - 1]) + xs[|xs| - 1]
  }

  // ---------------------------------------------------------------------
  // form_selection
  // ---------------------------------------------------------------------

  /** A row of the bootstrap form: which form, which fields, which file. */
  datatype CatalogRecord = CatalogRecord(formname: string, fieldnames: string, filename: string)

  /** One `(form_name, file_name, field_names)` triple. */
  datatype Selection = Selection(formName: string, fileName: string, fieldNames: seq<string>)

  /**
   * The triple for one catalog row. An empty field list is replaced by the
   * definition field; otherwise the list is split on commas, so the field
   * names never contain a comma and joining them restores the row's text.
   * The file name falls back to the form name when it is empty.
   */
  function SelectForm(rec: CatalogRecord, defField: string): (sel: Selection)
    ensures sel.formName == rec.formname
    ensures rec.filename != "" ==> sel.fileName == rec.filename
    ensures rec.filename == "" ==> sel.fileName == rec.formname
    ensures rec.fieldnames == "" ==> sel.fieldNames == [defField]
    ensures rec.fieldnames != "" ==>
              |sel.fieldNames| >= 1 &&
              JoinWith(sel.fieldNames, ',') == rec.fieldnames &&
              forall k :: 0 <= k < |sel.fieldNames| ==> ',' !in sel.fieldNames[k]
  {
    JoinSplit(rec.fieldnames, ',');
    var fields := if rec.fieldnames == "" then [defField] else Split(rec.fieldnames, ',');
    Selection(rec.formname, if rec.filename != "" then rec.filename else rec.formname, fields)
  }

  /** `form_selection`: one triple per catalog row, in row order. */
  function FormSelection(records: seq<CatalogRecord>, defField: string): (sels: seq<Selection>)
    ensures |sels| == |records|
    ensures forall k :: 0 <= k < |records| ==> sels[k] == SelectForm(records[k], defField)
  {
    if records == [] then []
    else [SelectForm(records[0], defField)] + FormSelection(records[1..], defField)
  }

  // ---------------------------------------------------------------------
  // chunks
  // ---------------------------------------------------------------------

  /** The number of slices of size `n` that cover `m` items: the ceiling of m/n. */
  function CeilDiv(m: nat, n: nat): nat
    requires n > 0
  {
    (m + n - 1) / n
  }

  lemma CeilDivStep(m: nat, n: nat)
    requires n > 0 && m > 0
    ensures CeilDiv(m, n) == 1 + CeilDiv(if m <= n then 0 else m - n, n)
  {
    if m <= n {
      DivUnique(m + n - 1, n, 1, m - 1);
      DivUnique(n - 1, n, 0, n - 1);
    } else {
      var q, r := (m - 1) / n, (m - 1) % n;
      DivUnique(m - 1, n, q, r);
      DivUnique(m + n - 1, n, q + 1, r);
    }
  }

  /** Euclidean division is determined by quotient and remainder. */
  lemma DivUnique(a: int, n: int, q: int, r: int)
    requires n > 0 && 0 <= r < n && a == q * n + r
    ensures a / n == q && a % n == r
  {
    var q', r' := a / n, a % n;
    assert a == q' * n + r' && 0 <= r' < n;
    assert (q' - q) * n == r - r';
    MulAwayFromZero(q' - q, n);
  }

  lemma MulAwayFromZero(d: int, n: int)
    requires n > 0
    ensures d >= 1 ==> d * n >= n
    ensures d <= -1 ==> d * n <= -n
  {
  }

  /** The concatenation of a list of slices. */
  function Flatten<T>(cs: seq<seq<T>>): seq<T>
  {
    if cs == [] then [] else cs[0] + Flatten(cs[1..])
  }

  /**
   * `chunks(items, n)` from index `i` on: the slices `items[i:i+n]`,
   * `items[i+n:i+2n]`, ... for every start index below `len(items)`. Every
   * slice is non-empty and holds at most `n` items, all but the last hold
   * exactly `n`, and there are ceil((len(items) - i) / n) of them.
   */
  function ChunksFrom<T>(items: seq<T>, n: nat, i: nat): (cs: seq<seq<T>>)
    requires n > 0
    ensures forall k :: 0 <= k < |cs| ==> 0 < |cs[k]| <= n
    ensures forall k :: 0 <= k < |cs| - 1 ==> |cs[k]| == n
    ensures |cs| == CeilDiv(if i <= |items| then |items| - i else 0, n)
    decreases |items| - i
  {
    if i >= |items| then []
    else
      var j := if i + n <= |items| then i + n else |items|;
      CeilDivStep(|items| - i, n);
      [items[i..j]] + ChunksFrom(items, n, i + n)
  }

  /**
   * `chunks(items, n)`: slices of at most `n` items, all full but the last,
   * ceil(len(items) / n) of them, and together, in order, exactly `items`.
   */
  function Chunks<T>(items: seq<T>, n: nat): (cs: seq<seq<T>>)
    requires n > 0
    ensures forall k :: 0 <= k < |cs| ==> 0 < |cs[k]| <= n
    ensures forall k :: 0 <= k < |cs| - 1 ==> |cs[k]| == n
    ensures |cs| == CeilDiv(|items|, n)
    ensures Flatten(cs) == items
  {
    FlattenChunksFrom(items, n, 0);
    ChunksFrom(items, n, 0)
  }

  lemma {:induction false} FlattenChunksFrom<T>(items: seq<T>, n: nat, i: nat)
    requires n > 0 && i <= |items|
    ensures Flatten(ChunksFrom(items, n, i)) == items[i..]
    decreases |items| - i
  {
    if i < |items| {
      var j := if i + n <= |items| then i + n else |items|;
      var cs := ChunksFrom(items, n, i);
      assert cs[0] == items[i..j] && cs[1..] == ChunksFrom(items, n, i + n);
      if i + n <= |items| {
        FlattenChunksFrom(items, n, i + n);
        assert items[i..] == items[i..j] + items[j..];
      } else {
        assert ChunksFrom(items, n, i + n) == [];
        assert items[i..] == items[i..j];
      }
    }
  }

  // ---------------------------------------------------------------------
  // Record ids
  // ---------------------------------------------------------------------

  ghost predicate NoDup<T>(xs: seq<T>)
  {
    forall a, b :: 0 <= a < b < |xs| ==> xs[a] != xs[b]
  }

  /**
   * `list(set(ids))`: every id once. Python's order is that of the set's
   * hash table; this model keeps first occurrences, and nothing below
   * depends on the order.
   */
  function Dedup(ids: seq<string>): (r: seq<string>)
    ensures NoDup(r)
    ensures forall x :: x in r <==> x in ids
    ensures |r| <= |ids|
  {
    if ids == [] then []
    else
      var front := Dedup(ids[..|ids| - 1]);
      var last := ids[|ids| - 1];
      assert ids == ids[..|ids| - 1] + [last];
      if last in front then front else front + [last]
  }

  lemma {:induction false} FlattenMembers<T>(cs: seq<seq<T>>, x: T)
    ensures x in Flatten(cs) <==> exists k :: 0 <= k < |cs| && x in cs[k]
  {
    if cs != [] {
      FlattenMembers(cs[1..], x);
      if x in cs[0] {
        assert 0 < |cs| && x in cs[0];
      }
      forall k | 1 <= k < |cs| && x in cs[k]
        ensures exists k' :: 0 <= k' < |cs[1..]| && x in cs[1..][k']
      {
        assert x in cs[1..][k - 1];
      }
      forall k | 0 <= k < |cs[1..]| && x in cs[1..][k]
        ensures exists k' :: 0 <= k' < |cs| && x in cs[k']
      {
        assert cs[1..][k] == cs[k + 1];
      }
    }
  }

  lemma {:induction false} FlattenDisjoint<T>(cs: seq<seq<T>>)
    requires NoDup(Flatten(cs))
    ensures forall a, b, x :: 0 <= a < b < |cs| && x in cs[a] ==> x !in cs[b]
    ensures forall k :: 0 <= k < |cs| ==> NoDup(cs[k])
  {
    if cs != [] {
      var f := Flatten(cs);
      var rest := Flatten(cs[1..]);
      assert f == cs[0] + rest;
      assert NoDup(rest) by {
        forall a, b | 0 <= a < b < |rest| ensures rest[a] != rest[b] {
          assert rest[a] == f[|cs[0]| + a] && rest[b] == f[|cs[0]| + b];
        }
      }
      FlattenDisjoint(cs[1..]);
      forall b, x | 0 < b < |cs| && x in cs[0] ensures x !in cs[b] {
        var p :| 0 <= p < |cs[0]| && cs[0][p] == x;
        forall q | 0 <= q < |rest| ensures rest[q] != x {
          assert rest[q] == f[|cs[0]| + q] && f[p] == x;
        }
        FlattenMembers(cs[1..], x);
        assert cs[b] == cs[1..][b - 1];
      }
      forall a, b, x | 0 <= a < b < |cs| && x in cs[a] ensures x !in cs[b] {
        if a > 0 {
          assert cs[a] == cs[1..][a - 1] && cs[b] == cs[1..][b - 1];
        }
      }
      assert NoDup(cs[0]) by {
        forall a, b | 0 <= a < b < |cs[0]| ensures cs[0][a] != cs[0][b] {
          assert cs[0][a] == f[a] && cs[0][b] == f[b];
        }
      }
      forall k | 0 < k < |cs| ensures NoDup(cs[k]) {
        assert cs[k] == cs[1..][k - 1];
      }
    }
  }

  /** The chunk size `csv_chunks` passes to `chunks`. */
  const ChunkSize: nat := 50

  /** The id lists `csv_chunks` requests, one per chunked call. */
  function IdSlices(ids: seq<string>): seq<seq<string>>
  {
    Chunks(Dedup(ids), ChunkSize)
  }

  /**
   * The requested id lists partition the distinct ids: no id is repeated
   * within a list or across two lists, every id fetched is in some list, and
   * every list holds between one and 50 ids.
   */
  lemma IdSlicesPartition(ids: seq<string>)
    ensures forall k :: 0 <= k < |IdSlices(ids)| ==> NoDup(IdSlices(ids)[k])
    ensures forall a, b, x :: 0 <= a < b < |IdSlices(ids)| && x in IdSlices(ids)[a] ==> x !in IdSlices(ids)[b]
    ensures forall x :: x in ids <==> exists k :: 0 <= k < |IdSlices(ids)| && x in IdSlices(ids)[k]
    ensures forall k :: 0 <= k < |IdSlices(ids)| ==> 0 < |IdSlices(ids)[k]| <= ChunkSize
    ensures |IdSlices(ids)| == CeilDiv(|Dedup(ids)|, ChunkSize)
  {
    var d := Dedup(ids);
    assert IdSlices(ids) == Chunks(d, ChunkSize);
    FlattenDisjoint(Chunks(d, ChunkSize));
    forall x ensures x in ids <==> exists k :: 0 <= k < |IdSlices(ids)| && x in IdSlices(ids)[k] {
      FlattenMembers(Chunks(d, ChunkSize), x);
    }
  }

  // ---------------------------------------------------------------------
  // csv_chunks
  // ---------------------------------------------------------------------

  /**
   * What a consumer of the `csv_chunks` generator sees: the texts it yields
   * and whether it then raised `RedcapError` instead of finishing.
   */
  datatype Stream = Stream(yielded: seq<string>, raised: bool)

  predicate AllGot(replies: seq<Fetched<string>>)
  {
    forall j :: 0 <= j < |replies| ==> replies[j].Got?
  }

  /** The index of the first `RedcapError` among the replies, or their number. */
  function FirstError(replies: seq<Fetched<string>>): (k: nat)
    ensures k <= |replies|
    ensures AllGot(replies[..k])
    ensures k < |replies| ==> replies[k].RedcapError?
  {
    if replies == [] || replies[0].RedcapError? then 0
    else
      var k := 1 + FirstError(replies[1..]);
      assert forall j :: 1 <= j < k ==> replies[..k][j] == replies[1..][..k - 1][j - 1];
      k
  }

  /** The texts of replies that all carry one. */
  function Texts(replies: seq<Fetched<string>>): (ts: seq<string>)
    requires AllGot(replies)
    ensures |ts| == |replies|
    ensures forall k :: 0 <= k < |replies| ==> ts[k] == replies[k].value
  {
    seq(|replies|, k requires 0 <= k < |replies| => replies[k].value)
  }

  lemma {:induction false} ConcatAppend(xs: seq<string>, ys: seq<string>)
    ensures Concat(xs + ys) == Concat(xs) + Concat(ys)
    decreases |ys|
  {
    if ys == [] {
      assert xs + ys == xs;
    } else {
      var n := |ys|;
      var init := ys[..n - 1];
      ConcatAppend(xs, init);
      assert (xs + ys)[..|xs + ys| - 1] == xs + init;
      assert (xs + ys)[|xs + ys| - 1] == ys[n - 1];
      assert Concat(xs + ys) == Concat(xs + init) + ys[n - 1];
      assert Concat(ys) == Concat(init) + ys[n - 1];
    }
  }

  /**
   * The texts of the replies, leaving out the empty (falsy) ones; nothing
   * else is lost, so the concatenation is the same.
   */
  function NonEmpty(replies: seq<Fetched<string>>): (ts: seq<string>)
    requires AllGot(replies)
    ensures forall k :: 0 <= k < |ts| ==> ts[k] != ""
    ensures |ts| <= |replies|
    ensures Concat(ts) == Concat(Texts(replies))
  {
    if replies == [] then []
    else
      AllGotTail(replies);
      var rest := NonEmpty(replies[1..]);
      NonEmptyStep(replies[0].value, rest, Texts(replies[1..]), |replies[1..]|);
      Keep(replies[0].value) + rest
  }

  /** The yield of one reply: its text, unless that is empty. */
  function Keep(v: string): seq<string>
  {
    if v != "" then [v] else []
  }

  lemma AllGotTail(replies: seq<Fetched<string>>)
    requires replies != [] && AllGot(replies)
    ensures AllGot(replies[1..])
    ensures Texts(replies) == [replies[0].value] + Texts(replies[1..])
  {
    assert forall j :: 0 <= j < |replies| - 1 ==> replies[1..][j] == replies[j + 1];
  }

  /** A single reply yields its text, unless that is empty. */
  lemma NonEmptyOne(v: string)
    ensures NonEmpty([Got(v)]) == Keep(v)
  {
    assert [Got(v)][1..] == [];
  }

  /**
   * `NonEmpty` of consecutive replies is the concatenation of their yields;
   * with `NonEmptyOne` this makes it the order-preserving filter of the
   * non-empty texts, one item per reply.
   */
  lemma {:induction false} NonEmptyAppend(a: seq<Fetched<string>>, b: seq<Fetched<string>>)
    requires AllGot(a) && AllGot(b)
    ensures AllGot(a + b)
    ensures NonEmpty(a + b) == NonEmpty(a) + NonEmpty(b)
    decreases |a|
  {
    AllGotAppend(a, b);
    if a == [] {
      assert a + b == b;
    } else {
      var v, t := a[0].value, a[1..];
      AllGotTail(a);
      AllGotAppend(t, b);
      assert NonEmpty(a + b) == Keep(v) + NonEmpty(t + b) by {
        NonEmptyCons(a + b);
        ConsAppend(a, b);
      }
      assert NonEmpty(a) == Keep(v) + NonEmpty(t) by {
        NonEmptyCons(a);
      }
      NonEmptyAppend(t, b);
      AppendAssoc(Keep(v), NonEmpty(t), NonEmpty(b));
      calc {
        NonEmpty(a + b);
        Keep(v) + NonEmpty(t + b);
        Keep(v) + (NonEmpty(t) + NonEmpty(b));
        (Keep(v) + NonEmpty(t)) + NonEmpty(b);
        NonEmpty(a) + NonEmpty(b);
      }
    }
  }

  lemma AllGotAppend(a: seq<Fetched<string>>, b: seq<Fetched<string>>)
    requires AllGot(a) && AllGot(b)
    ensures AllGot(a + b)
  {
    assert forall j :: 0 <= j < |a + b| ==> (a + b)[j] == if j < |a| then a[j] else b[j - |a|];
  }

  lemma NonEmptyCons(r: seq<Fetched<string>>)
    requires r != [] && AllGot(r)
    ensures AllGot(r[1..])
    ensures NonEmpty(r) == Keep(r[0].value) + NonEmpty(r[1..])
  {
    AllGotTail(r);
  }

  /** When no reply is empty, every text is yielded. */
  lemma {:induction false} NonEmptyAll(replies: seq<Fetched<string>>)
    requires AllGot(replies)
    requires forall k :: 0 <= k < |replies| ==> replies[k].value != ""
    ensures NonEmpty(replies) == Texts(replies)
    decreases |replies|
  {
    if replies != [] {
      AllGotTail(replies);
      assert forall k :: 0 <= k < |replies| - 1 ==> replies[1..][k] == replies[k + 1];
      NonEmptyAll(replies[1..]);
    }
  }

  /** One more reply in front: the properties of `NonEmpty` carry over. */
  lemma NonEmptyStep(v: string, rest: seq<string>, tail: seq<string>, n: nat)
    requires forall k :: 0 <= k < |rest| ==> rest[k] != ""
    requires |rest| <= n
    requires Concat(rest) == Concat(tail)
    ensures forall k :: 0 <= k < |Keep(v) + rest| ==> (Keep(v) + rest)[k] != ""
    ensures |Keep(v) + rest| <= n + 1
    ensures Concat(Keep(v) + rest) == Concat([v] + tail)
  {
    var r := Keep(v) + rest;
    forall k | 0 <= k < |r| ensures r[k] != "" {
      if k >= |Keep(v)| {
        assert r[k] == rest[k - |Keep(v)|];
      }
    }
    ConcatAppend(Keep(v), rest);
    ConcatAppend([v], tail);
    assert Concat([v]) == Concat([]) + v;
  }

  /**
   * The loop of `csv_chunks` over the replies, in order: an empty reply is
   * skipped and the loop goes on; a `RedcapError` ends the stream and is
   * raised after the texts of the replies before it.
   */
  function Drain(replies: seq<Fetched<string>>): (s: Stream)
    ensures s.raised <==> FirstError(replies) < |replies|
    ensures s.yielded == NonEmpty(replies[..FirstError(replies)])
  {
    if replies == [] then Stream([], false)
    else
      match replies[0]
      case RedcapError => Stream([], true)
      case Got(data) =>
        var rest := Drain(replies[1..]);
        DrainStep(replies);
        Stream(Keep(data) + rest.yielded, rest.raised)
  }

  lemma DrainStep(replies: seq<Fetched<string>>)
    requires replies != [] && replies[0].Got?
    ensures FirstError(replies) == 1 + FirstError(replies[1..])
    ensures NonEmpty(replies[..FirstError(replies)]) ==
            Keep(replies[0].value) + NonEmpty(replies[1..][..FirstError(replies[1..])])
  {
    var k := FirstError(replies[1..]);
    var xs := replies[..1 + k];
    assert xs[0] == replies[0];
    assert xs[1..] == replies[1..][..k];
  }

  /** The reply to each requested id list. */
  function Replies(slices: seq<seq<string>>, fetch: seq<string> -> Fetched<string>): (rs: seq<Fetched<string>>)
    ensures |rs| == |slices|
    ensures forall k :: 0 <= k < |slices| ==> rs[k] == fetch(slices[k])
  {
    seq(|slices|, k requires 0 <= k < |slices| => fetch(slices[k]))
  }

  /**
   * `csv_chunks`: `idReply` is the reply to the id-only request (made outside
   * the `try`, so its error propagates unlogged), `fetch` answers each chunked
   * request. Every yielded text is non-empty; the stream raises exactly when
   * one of the requests fails; when none fails, the yielded texts are all
   * the replies' texts in order, only the empty ones left out.
   */
  function CsvChunks(idReply: Fetched<seq<string>>, fetch: seq<string> -> Fetched<string>): (s: Stream)
    ensures idReply.RedcapError? ==> s == Stream([], true)
    ensures forall k :: 0 <= k < |s.yielded| ==> s.yielded[k] != ""
    ensures idReply.Got? ==>
              (s.raised <==> !AllGot(Replies(IdSlices(idReply.value), fetch)))
    ensures idReply.Got? && !s.raised ==>
              |s.yielded| <= |IdSlices(idReply.value)| &&
              Concat(s.yielded) == Concat(Texts(Replies(IdSlices(idReply.value), fetch)))
    ensures idReply.Got? ==>
              var replies := Replies(IdSlices(idReply.value), fetch);
              s.yielded == NonEmpty(replies[..FirstError(replies)])
  {
    match idReply
    case RedcapError => Stream([], true)
    case Got(ids) =>
      var replies := Replies(IdSlices(ids), fetch);
      var s := Drain(replies);
      assert !s.raised ==> replies[..FirstError(replies)] == replies;
      assert s.raised ==> replies[FirstError(replies)].RedcapError?;
      s
  }

  /** The id lists requested before the stream ends: up to the first failing one. */
  function Requested(ids: seq<string>, fetch: seq<string> -> Fetched<string>): (rs: seq<seq<string>>)
    ensures |rs| <= |IdSlices(ids)| && rs == IdSlices(ids)[..|rs|]
    ensures forall k :: 0 <= k < |rs| - 1 ==> fetch(rs[k]).Got?
    ensures CsvChunks(Got(ids), fetch).raised <==> rs != [] && fetch(rs[|rs| - 1]).RedcapError?
    ensures !CsvChunks(Got(ids), fetch).raised ==> rs == IdSlices(ids)
  {
    var slices := IdSlices(ids);
    var k := FirstError(Replies(slices, fetch));
    AllGotFirstError(Replies(slices, fetch));
    RequestedCut(slices, fetch, k);
    slices[..if k < |slices| then k + 1 else k]
  }

  /** The replies all carry a text exactly when the first error is past their end. */
  lemma AllGotFirstError(replies: seq<Fetched<string>>)
    ensures AllGot(replies) <==> FirstError(replies) == |replies|
  {
    assert replies[..|replies|] == replies;
  }

  /** The slices up to and including the first failing one. */
  lemma RequestedCut(slices: seq<seq<string>>, fetch: seq<string> -> Fetched<string>, k: nat)
    requires k == FirstError(Replies(slices, fetch))
    ensures var rs := slices[..if k < |slices| then k + 1 else k];
            && (forall j :: 0 <= j < |rs| - 1 ==> fetch(rs[j]).Got?)
            && (k < |slices| <==> rs != [] && fetch(rs[|rs| - 1]).RedcapError?)
            && (k == |slices| ==> rs == slices)
  {
    var replies := Replies(slices, fetch);
    assert forall j :: 0 <= j < k ==> replies[..k][j] == replies[j];
    assert slices[..|slices|] == slices;
  }

  /**
   * The export of one form end to end: when every chunked request answers
   * the same header line followed by its rows, the stream does not raise
   * and the file written from it is the header once, then every chunk's
   * rows in slice order.
   */
  lemma CsvExportHeaderOnce(ids: seq<string>, fetch: seq<string> -> Fetched<string>,
                            header: string, rows: seq<string>)
    requires '\n' !in header
    requires |rows| == |IdSlices(ids)| >= 1
    requires forall k :: 0 <= k < |rows| ==> fetch(IdSlices(ids)[k]) == Got(header + "\n" + rows[k])
    ensures !CsvChunks(Got(ids), fetch).raised
    ensures Exported(CsvChunks(Got(ids), fetch).yielded) == Written(header + "\n" + Concat(rows), true)
  {
    var replies := Replies(IdSlices(ids), fetch);
    HeaderReplies(replies, header, rows);
    AllGotFirstError(replies);
    assert replies[..FirstError(replies)] == replies;
    NonEmptyAll(replies);
    HeaderOnce(header, rows, Texts(replies));
  }

  /** Replies that are each the header line and some rows all carry a non-empty text. */
  lemma HeaderReplies(replies: seq<Fetched<string>>, header: string, rows: seq<string>)
    requires |replies| == |rows|
    requires forall k :: 0 <= k < |rows| ==> replies[k] == Got(header + "\n" + rows[k])
    ensures AllGot(replies)
    ensures forall k :: 0 <= k < |replies| ==> replies[k].value != ""
    ensures forall k :: 0 <= k < |replies| ==> Texts(replies)[k] == header + "\n" + rows[k]
  {
    forall j | 0 <= j < |replies| ensures replies[j].value != "" {
      assert (header + "\n" + rows[j])[|header|] == '\n';
    }
  }

  // ---------------------------------------------------------------------
  // export_form
  // ---------------------------------------------------------------------

  /** The file `export_form` leaves behind, and whether every chunk was written. */
  datatype Written = Written(text: string, complete: bool)

  /**
   * The file written for the chunks `cs`: the first chunk whole, then each
   * later chunk without its first line. A later chunk without a newline
   * makes `split('\n', 1)[1]` raise `IndexError`, and the file keeps what
   * was written before it.
   */
  function Exported(cs: seq<string>): (w: Written)
    ensures cs == [] ==> w == Written("", true)
    ensures w.complete <==> forall k :: 1 <= k < |cs| ==> '\n' in cs[k]
  {
    if cs == [] then Written("", true)
    else if |cs| == 1 then Written(cs[0], true)
    else
      var front := Exported(cs[..|cs| - 1]);
      var parts := SplitOnce(cs[|cs| - 1], '\n');
      assert forall k :: 1 <= k < |cs| - 1 ==> cs[..|cs| - 1][k] == cs[k];
      if !front.complete then front
      else if |parts| < 2 then Written(front.text, false)
      else Written(front.text + parts[1], true)
  }

  /**
   * Header once: when every chunk is the same header line followed by its
   * rows, the file is that header followed by all the rows, in chunk order.
   */
  lemma {:induction false} HeaderOnce(header: string, rows: seq<string>, cs: seq<string>)
    requires '\n' !in header
    requires |cs| == |rows| >= 1
    requires forall k :: 0 <= k < |cs| ==> cs[k] == header + "\n" + rows[k]
    ensures Exported(cs) == Written(header + "\n" + Concat(rows), true)
  {
    var n := |cs|;
    if n == 1 {
      assert cs[0] == header + "\n" + rows[0];
      assert rows[..0] == [];
    } else {
      var front, frows := cs[..n - 1], rows[..n - 1];
      forall k | 0 <= k < |front| ensures front[k] == header + "\n" + frows[k] {
        assert front[k] == cs[k] && frows[k] == rows[k];
      }
      HeaderOnce(header, frows, front);
      var last := cs[n - 1];
      assert last == header + "\n" + rows[n - 1];
      SplitOnceAfter(header, rows[n - 1]);
      ExportedStep(cs, rows[n - 1]);
      HeaderLast(header, rows);
    }
  }

  lemma HeaderLast(header: string, rows: seq<string>)
    requires |rows| >= 1
    ensures (header + "\n" + Concat(rows[..|rows| - 1])) + rows[|rows| - 1] == header + "\n" + Concat(rows)
  {
  }

  lemma ExportedStep(cs: seq<string>, body: string)
    requires |cs| >= 2 && Exported(cs[..|cs| - 1]).complete
    requires SplitOnce(cs[|cs| - 1], '\n') == [SplitOnce(cs[|cs| - 1], '\n')[0], body]
    ensures Exported(cs) == Written(Exported(cs[..|cs| - 1]).text + body, true)
  {
  }

  lemma {:induction false} SplitOnceAfter(header: string, body: string)
    requires '\n' !in header
    ensures SplitOnce(header + "\n" + body, '\n') == [header, body]
  {
    var s := header + "\n" + body;
    if header == [] {
      assert s == "\n" + body && s[1..] == body;
    } else {
      SplitOnceAfter(header[1..], body);
      assert s[0] == header[0] && s[1..] == header[1..] + "\n" + body;
      assert [header[0]] + header[1..] == header;
    }
  }

  /** How `export_form` ends. */
  datatype Outcome = Completed | RedcapRaised | IndexErrorRaised

  /**
   * `export_form` writing the stream of `csv_chunks` into a file that starts
   * empty: `file` is the final content and `outcome` says whether the
   * function returned or which exception it raised.
   */
  method ExportForm(stream: Stream) returns (file: string, outcome: Outcome)
    ensures file == Exported(stream.yielded).text
    ensures outcome == Completed <==> Exported(stream.yielded).complete && !stream.raised
    ensures outcome == IndexErrorRaised <==> !Exported(stream.yielded).complete
  {
    var cs := stream.yielded;
    var headerWritten := false;
    file := "";
    var i := 0;
    while i < |cs|
      invariant 0 <= i <= |cs|
      invariant headerWritten <==> i > 0
      invariant Exported(cs[..i]) == Written(file, true)
    {
      var data := cs[i];
      ExportedNext(cs, i);
      if headerWritten {
        var parts := SplitOnce(data, '\n');
        if |parts| < 2 {
          outcome := IndexErrorRaised;
          BrokenPrefix(cs, i + 1);
          return;
        }
        data := parts[1];
      } else {
        headerWritten := true;
      }
      file := file + data;
      i := i + 1;
    }
    assert cs[..i] == cs;
    outcome := if stream.raised then RedcapRaised else Completed;
  }

  /** One more chunk on a completely written prefix. */
  lemma ExportedNext(cs: seq<string>, i: nat)
    requires i < |cs| && Exported(cs[..i]).complete
    ensures i == 0 ==> Exported(cs[..i + 1]) == Written(cs[0], true)
    ensures i > 0 && |SplitOnce(cs[i], '\n')| < 2 ==> Exported(cs[..i + 1]) == Written(Exported(cs[..i]).text, false)
    ensures i > 0 && |SplitOnce(cs[i], '\n')| >= 2 ==>
              Exported(cs[..i + 1]) == Written(Exported(cs[..i]).text + SplitOnce(cs[i], '\n')[1], true)
  {
    assert cs[..i + 1][..i] == cs[..i];
    assert cs[..i + 1][i] == cs[i];
  }

  /** Once a prefix of the chunks is incomplete, so is the whole list. */
  lemma {:induction false} BrokenPrefix(cs: seq<string>, i: nat)
    requires i <= |cs|
    requires !Exported(cs[..i]).complete
    ensures Exported(cs) == Exported(cs[..i])
    decreases |cs| - i
  {
    if i < |cs| {
      assert cs[..i + 1][..i] == cs[..i];
      BrokenPrefix(cs, i + 1);
    } else {
      assert cs[..i] == cs;
    }
  }

  // ---------------------------------------------------------------------
  // Destination file (main)
  // ---------------------------------------------------------------------

  /** The suffix `main` gives every destination file. */
  const CsvSuffix: string := ".csv"

  /** `s.rfind(c)`: the last index of `c` in `s`, or -1. */
  function LastIndexOf(s: string, c: char): (i: int)
    ensures -1 <= i < |s|
    ensures i >= 0 ==> s[i] == c && c !in s[i + 1..]
    ensures i == -1 ==> c !in s
  {
    if s == [] then -1
    else if s[|s| - 1] == c then |s| - 1
    else
      var i := LastIndexOf(s[..|s| - 1], c);
      assert s == s[..|s| - 1] + [s[|s| - 1]];
      i
  }

  /**
   * `PurePath.suffix`: from the last dot on, unless that dot is the first
   * or the last character of the name.
   */
  function Suffix(name: string): (suf: string)
    ensures suf == [] || (|suf| >= 2 && suf[0] == '.' && '.' !in suf[1..] && |suf| < |name|)
    ensures name[|name| - |suf|..] == suf
    ensures suf != [] <==> |name| >= 2 && '.' in name[1..] && name[|name| - 1] != '.'
  {
    var i := LastIndexOf(name, '.');
    SuffixCondition(name, i);
    if 0 < i < |name| - 1 then
      assert name[i..][1..] == name[i + 1..];
      name[i..]
    else []
  }

  /** The last dot is inside the name exactly when a later character than the first is a dot and the last is not. */
  lemma SuffixCondition(name: string, i: int)
    requires i == LastIndexOf(name, '.')
    ensures 0 < i < |name| - 1 <==> |name| >= 2 && '.' in name[1..] && name[|name| - 1] != '.'
  {
    if 0 < i < |name| - 1 {
      assert name[1..][i - 1] == name[i];
      assert name[|name| - 1] == name[i + 1..][|name| - 2 - i];
    }
    if |name| >= 2 && '.' in name[1..] && name[|name| - 1] != '.' {
      var j :| 0 <= j < |name[1..]| && name[1..][j] == '.';
      assert name[j + 1] == '.';
    }
  }

  /** The name without its suffix. */
  function Stem(name: string): string
  {
    name[..|name| - |Suffix(name)|]
  }

  /**
   * The suffixes `with_suffix` accepts: no separator, and either empty or a
   * dot followed by at least one character.
   */
  predicate ValidSuffix(suffix: string)
  {
    '/' !in suffix && (suffix == "" || (suffix[0] == '.' && suffix != "."))
  }

  /**
   * `p.with_suffix(suffix)`: the same directory, the stem of the name
   * followed by `suffix`. pathlib raises `ValueError` (None here) for an
   * invalid suffix and for a path with an empty name.
   */
  function WithSuffix(p: Path, suffix: string): (r: Option<Path>)
    ensures r.Some? <==> ValidSuffix(suffix) && Name(p) != ""
    ensures r.Some? && Stem(Name(p)) + suffix != "" && Stem(Name(p)) + suffix != "." ==>
              Parent(r.value) == Parent(p) && Name(r.value) == Stem(Name(p)) + suffix
  {
    if !ValidSuffix(suffix) || Name(p) == "" then None else Some(Join(Parent(p), Stem(Name(p)) + suffix))
  }

  /** `(dest_dir / file_name).with_suffix('.csv')`. */
  function Destination(destDir: Path, fileName: string): (r: Option<Path>)
    ensures fileName != "" && fileName != "." ==>
              r.Some? && Parent(r.value) == destDir && Name(r.value) == Stem(fileName) + CsvSuffix
  {
    if fileName != "" && fileName != "." then
      StemNonEmpty(fileName);
      WithSuffix(Join(destDir, fileName), CsvSuffix)
    else
      WithSuffix(Join(destDir, fileName), CsvSuffix)
  }

  /**
   * For a proper file name the destination is in `destDir`, keeps the stem
   * of the name and has exactly the suffix ".csv", so naming it again does
   * not change it.
   */
  lemma DestinationInDir(destDir: Path, fileName: string)
    requires fileName != "" && fileName != "."
    ensures Destination(destDir, fileName).Some?
    ensures var p := Destination(destDir, fileName).value;
      Parent(p) == destDir && Suffix(Name(p)) == CsvSuffix && Stem(Name(p)) == Stem(fileName) &&
      Destination(destDir, Name(p)) == Some(p)
  {
    var stem := Stem(fileName);
    StemNonEmpty(fileName);
    SuffixOfCsv(stem);
    var name := stem + CsvSuffix;
    assert Stem(name) == stem;
  }

  lemma StemNonEmpty(name: string)
    requires name != ""
    ensures Stem(name) != ""
  {
    var i := LastIndexOf(name, '.');
    if 0 < i < |name| - 1 {
      assert |Suffix(name)| == |name| - i;
    }
  }

  lemma SuffixOfCsv(stem: string)
    requires stem != ""
    ensures Suffix(stem + CsvSuffix) == CsvSuffix
  {
    var name := stem + CsvSuffix;
    assert name[|stem|] == '.' && name[|stem| + 1..] == "csv";
    var i := LastIndexOf(name, '.');
    assert forall j :: |stem| < j < |name| ==> name[j] != '.';
    forall j | i < j < |name| ensures name[j] != '.' {
      assert name[j] == name[i + 1..][j - i - 1];
    }
    assert i == |stem|;
  }

  /**
   * With an empty file name (an empty `filename` and `formname`) the join
   * leaves `destDir` as it is, so the destination is a sibling of `destDir`
   * rather than a file inside it, and there is none when `destDir` has no
   * name.
   */
  lemma DestinationEmptyName(destDir: Path, fileName: string)
    requires fileName == "" || fileName == "."
    ensures Destination(destDir, fileName) == WithSuffix(destDir, CsvSuffix)
    ensures Name(destDir) == "" <==> Destination(destDir, fileName).None?
    ensures Name(destDir) != "" ==> Parent(Destination(destDir, fileName).value) == Parent(destDir)
  {
    assert Join(destDir, fileName) == destDir;
  }
}
