/**
 * The merge script: it lists the files of `temp/English` and `temp/Spanish`,
 * labels them by exact file-name match (1: English file with a Spanish
 * partner, 2: English only, 3: Spanish only), then combines each pair and
 * copies every unpaired file one directory above `temp`.
 *
 * `classify_files` removes items from the lists it is iterating over. The
 * model iterates as Python's list iterator does, by an index into the list as
 * it is at each step, so the element after a removed one is never looked at.
 * `MatchLabels` describes the result from the original lists alone.
 */
module CombineEngEsp {
  import opened Paths
  import opened Seqs

  /** The labels of `comb_file_list`. */
  const Paired: int := 1
  const EnglishOnly: int := 2
  const SpanishOnly: int := 3

  // ---------------------------------------------------------------------
  // The dictionary `comb_file_list`
  // ---------------------------------------------------------------------

  /** One key of the dictionary with its kind, in insertion order. */
  datatype Entry = Entry(file: Path, kind: int)

  function Keys(d: seq<Entry>): (ks: seq<Path>)
    ensures |ks| == |d|
    ensures forall k :: 0 <= k < |d| ==> ks[k] == d[k].file
  {
    seq(|d|, k requires 0 <= k < |d| => d[k].file)
  }

  /** A dictionary holds each key once. */
  predicate UniqueKeys(d: seq<Entry>)
  {
    forall a, b :: 0 <= a < b < |d| ==> d[a].file != d[b].file
  }

  /** The position of key `f`. */
  function KeyIndex(d: seq<Entry>, f: Path): (k: nat)
    requires f in Keys(d)
    ensures k < |d| && d[k].file == f
  {
    if d[0].file == f then 0
    else
      assert Keys(d)[1..] == Keys(d[1..]);
      1 + KeyIndex(d[1..], f)
  }

  /**
   * `d[f] = kind`: a new key goes at the end, an existing key keeps its
   * place and takes the new kind; no other entry changes.
   */
  function Assign(d: seq<Entry>, f: Path, kind: int): (r: seq<Entry>)
    requires UniqueKeys(d)
    ensures f !in Keys(d) ==> r == d + [Entry(f, kind)]
    ensures f in Keys(d) ==> |r| == |d| && Keys(r) == Keys(d)
    ensures forall k :: 0 <= k < |r| ==> r[k] == Entry(f, kind) || (k < |d| && r[k] == d[k] && d[k].file != f)
    ensures Entry(f, kind) in r
    ensures UniqueKeys(r)
  {
    if f in Keys(d) then
      var k := KeyIndex(d, f);
      ReplaceKey(d, k, kind);
      d[..k] + [Entry(f, kind)] + d[k + 1..]
    else
      AppendKey(d, f, kind);
      d + [Entry(f, kind)]
  }

  /** Giving the key at `k` a new kind keeps every other entry and every key. */
  lemma ReplaceKey(d: seq<Entry>, k: nat, kind: int)
    requires UniqueKeys(d) && k < |d|
    ensures var f := d[k].file;
            var r := d[..k] + [Entry(f, kind)] + d[k + 1..];
            && |r| == |d| && Keys(r) == Keys(d)
            && (forall t :: 0 <= t < |r| ==> r[t] == Entry(f, kind) || (t < |d| && r[t] == d[t] && d[t].file != f))
            && Entry(f, kind) in r
            && UniqueKeys(r)
  {
    var f := d[k].file;
    var r := d[..k] + [Entry(f, kind)] + d[k + 1..];
    assert forall t :: 0 <= t < |d| ==> r[t] == if t == k then Entry(f, kind) else d[t];
    assert r[k] == Entry(f, kind);
    assert forall t :: 0 <= t < |d| ==> r[t].file == d[t].file;
  }

  /** A new key appended at the end keeps the keys unique. */
  lemma AppendKey(d: seq<Entry>, f: Path, kind: int)
    requires UniqueKeys(d) && f !in Keys(d)
    ensures UniqueKeys(d + [Entry(f, kind)])
  {
    assert forall a :: 0 <= a < |d| ==> d[a].file != f;
  }

  /** The entries `(f, kind)` for the files of `fs`, in order. */
  function Tag(fs: seq<Path>, kind: int): (d: seq<Entry>)
    ensures |d| == |fs|
    ensures forall k :: 0 <= k < |fs| ==> d[k] == Entry(fs[k], kind)
    ensures Keys(d) == fs
  {
    seq(|fs|, k requires 0 <= k < |fs| => Entry(fs[k], kind))
  }

  /** How many entries carry `kind`. */
  function Count(d: seq<Entry>, kind: int): nat
  {
    if d == [] then 0 else Count(d[..|d| - 1], kind) + (if d[|d| - 1].kind == kind then 1 else 0)
  }

  lemma {:induction false} CountAppend(a: seq<Entry>, b: seq<Entry>, kind: int)
    ensures Count(a + b, kind) == Count(a, kind) + Count(b, kind)
    decreases |b|
  {
    if b == [] {
      assert a + b == a;
    } else {
      CountAppend(a, b[..|b| - 1], kind);
      assert (a + b)[..|a + b| - 1] == a + b[..|b| - 1];
    }
  }

  lemma {:induction false} CountTag(fs: seq<Path>, l: int, kind: int)
    ensures Count(Tag(fs, l), kind) == if l == kind then |fs| else 0
    decreases |fs|
  {
    if fs != [] {
      CountTag(fs[..|fs| - 1], l, kind);
      assert Tag(fs, l)[..|fs| - 1] == Tag(fs[..|fs| - 1], l);
    }
  }

  // ---------------------------------------------------------------------
  // Lists of files
  // ---------------------------------------------------------------------

  /** No two paths of the list are equal. */
  ghost predicate NoDup(s: seq<Path>)
  {
    forall a, b :: 0 <= a < b < |s| ==> s[a] != s[b]
  }

  /** No two files of the list have the same name, as in one directory. */
  ghost predicate UniqueNames(s: seq<Path>)
  {
    forall a, b :: 0 <= a < b < |s| ==> Name(s[a]) != Name(s[b])
  }

  function NamesOf(s: seq<Path>): set<string>
  {
    set x | x in s :: Name(x)
  }

  lemma NamesOfSubset(a: seq<Path>, b: seq<Path>)
    requires forall x :: x in a ==> x in b
    ensures NamesOf(a) <= NamesOf(b)
  {
  }

  lemma NamesOfSnoc(s: seq<Path>, x: Path)
    ensures NamesOf(s + [x]) == NamesOf(s) + {Name(x)}
  {
    assert forall y :: y in s + [x] <==> y in s || y == x;
  }

  /**
   * The inputs as `main` gives them: the listings of two directories, so
   * names are unique within each list and no path is in both.
   */
  ghost predicate WellFormed(eng: seq<Path>, esp: seq<Path>)
  {
    UniqueNames(eng) && UniqueNames(esp) && forall x :: x in eng ==> x !in esp
  }

  /** `s.index(x)`: the first position of `x`. */
  function IndexOf(s: seq<Path>, x: Path): (k: nat)
    requires x in s
    ensures k < |s| && s[k] == x && x !in s[..k]
  {
    if s[0] == x then 0
    else
      var k := 1 + IndexOf(s[1..], x);
      assert s[..k] == [s[0]] + s[1..][..k - 1];
      k
  }

  /** The first position of a file named `name`. */
  function NameIndex(s: seq<Path>, name: string): (k: nat)
    requires name in NamesOf(s)
    ensures k < |s| && Name(s[k]) == name
    ensures forall t :: 0 <= t < k ==> Name(s[t]) != name
  {
    if Name(s[0]) == name then 0
    else
      var x :| x in s && Name(x) == name;
      assert x in s[1..];
      1 + NameIndex(s[1..], name)
  }

  /** `s.remove(x)`: the list without the first occurrence of `x`. */
  function RemoveFirst(s: seq<Path>, x: Path): (r: seq<Path>)
    requires x in s
    ensures r == s[..IndexOf(s, x)] + s[IndexOf(s, x) + 1..]
    ensures |r| == |s| - 1
    ensures forall y :: y in r ==> y in s
  {
    var k := IndexOf(s, x);
    s[..k] + s[k + 1..]
  }

  /** The files of `s` whose name is not in `names`, in order. */
  function Without(s: seq<Path>, names: set<string>): (r: seq<Path>)
    ensures forall x :: x in r <==> x in s && Name(x) !in names
    ensures |r| <= |s|
  {
    if s == [] then []
    else
      var rest := Without(s[1..], names);
      assert forall x :: x in s <==> x == s[0] || x in s[1..];
      (if Name(s[0]) in names then [] else [s[0]]) + rest
  }

  /** Dropping files from consecutive parts drops them from each part, in order. */
  lemma {:induction false} WithoutAppend(a: seq<Path>, b: seq<Path>, names: set<string>)
    ensures Without(a + b, names) == Without(a, names) + Without(b, names)
    decreases |a|
  {
    if a == [] {
      assert a + b == b;
    } else {
      WithoutAppend(a[1..], b, names);
      ConsAppend(a, b);
      var head := if Name(a[0]) in names then [] else [a[0]];
      AppendAssoc(head, Without(a[1..], names), Without(b, names));
      calc {
        Without(a + b, names);
        head + Without(a[1..] + b, names);
        head + (Without(a[1..], names) + Without(b, names));
        (head + Without(a[1..], names)) + Without(b, names);
      }
    }
  }

  /** Dropping files keeps the names of the others unique. */
  lemma {:induction false} WithoutUnique(s: seq<Path>, names: set<string>)
    requires UniqueNames(s)
    ensures UniqueNames(Without(s, names))
  {
    if s != [] {
      UniqueNamesTail(s);
      WithoutUnique(s[1..], names);
      var rest := Without(s[1..], names);
      if Name(s[0]) !in names {
        var t := Without(s, names);
        assert t == [s[0]] + rest;
        forall a, b | 0 <= a < b < |t| ensures Name(t[a]) != Name(t[b]) {
          if a == 0 {
            assert t[b] in rest by { assert t[b] == rest[b - 1]; }
            UniqueNamesHead(s, t[b]);
          } else {
            assert t[a] == rest[a - 1] && t[b] == rest[b - 1];
          }
        }
      }
    }
  }

  /** The files of `s` whose kind is `kind`, in order. */
  function Pick(s: seq<Path>, labels: seq<int>, kind: int): (r: seq<Path>)
    requires |labels| == |s|
    ensures forall x :: x in r ==> x in s
    ensures |r| <= |s|
  {
    if s == [] then []
    else
      var n := |s|;
      var front := Pick(s[..n - 1], labels[..n - 1], kind);
      front + (if labels[n - 1] == kind then [s[n - 1]] else [])
  }

  lemma PickSnoc(s: seq<Path>, labels: seq<int>, x: Path, l: int, kind: int)
    requires |labels| == |s|
    ensures Pick(s + [x], labels + [l], kind) == Pick(s, labels, kind) + (if l == kind then [x] else [])
  {
    assert (s + [x])[..|s|] == s;
    assert (labels + [l])[..|s|] == labels;
  }

  /** Picking from consecutive parts picks from each part, in order. */
  lemma {:induction false} PickAppend(a: seq<Path>, la: seq<int>, b: seq<Path>, lb: seq<int>, kind: int)
    requires |la| == |a| && |lb| == |b|
    ensures Pick(a + b, la + lb, kind) == Pick(a, la, kind) + Pick(b, lb, kind)
    decreases |b|
  {
    if b == [] {
      assert a + b == a && la + lb == la;
    } else {
      var n := |b|;
      var x, l := b[n - 1], lb[n - 1];
      PickAppend(a, la, b[..n - 1], lb[..n - 1], kind);
      SnocAppend(a, b);
      SnocAppend(la, lb);
      PickSnoc(a + b[..n - 1], la + lb[..n - 1], x, l, kind);
      PickSnoc(b[..n - 1], lb[..n - 1], x, l, kind);
      AppendAssoc(Pick(a, la, kind), Pick(b[..n - 1], lb[..n - 1], kind), if l == kind then [x] else []);
    }
  }

  lemma {:induction false} PickNoDup(s: seq<Path>, labels: seq<int>, kind: int)
    requires |labels| == |s| && NoDup(s)
    ensures NoDup(Pick(s, labels, kind))
    decreases |s|
  {
    if s != [] {
      var n := |s|;
      assert NoDup(s[..n - 1]);
      PickNoDup(s[..n - 1], labels[..n - 1], kind);
      assert s[n - 1] !in s[..n - 1];
    }
  }

  lemma {:induction false} PickDisjoint(s: seq<Path>, labels: seq<int>, l1: int, l2: int)
    requires |labels| == |s| && NoDup(s) && l1 != l2
    ensures forall x :: x in Pick(s, labels, l1) ==> x !in Pick(s, labels, l2)
    decreases |s|
  {
    if s != [] {
      var n := |s|;
      assert NoDup(s[..n - 1]);
      PickDisjoint(s[..n - 1], labels[..n - 1], l1, l2);
      assert s[n - 1] !in s[..n - 1];
    }
  }

  /** With two labels, the two picks share out the list between them. */
  lemma {:induction false} PickSizes(s: seq<Path>, labels: seq<int>, l1: int, l2: int)
    requires |labels| == |s| && l1 != l2
    requires forall k :: 0 <= k < |labels| ==> labels[k] == l1 || labels[k] == l2
    ensures |Pick(s, labels, l1)| + |Pick(s, labels, l2)| == |s|
    decreases |s|
  {
    if s != [] {
      var n := |s|;
      PickSizes(s[..n - 1], labels[..n - 1], l1, l2);
    }
  }

  lemma UniqueNamesNoDup(s: seq<Path>)
    requires UniqueNames(s)
    ensures NoDup(s)
  {
  }

  lemma {:induction false} WithoutNothing(s: seq<Path>)
    ensures Without(s, {}) == s
  {
    if s != [] {
      WithoutNothing(s[1..]);
      assert s == [s[0]] + s[1..];
    }
  }

  lemma {:induction false} WithoutIgnore(s: seq<Path>, names: set<string>, n: string)
    requires forall x :: x in Without(s, names) ==> Name(x) != n
    ensures Without(s, names + {n}) == Without(s, names)
  {
    if s != [] {
      WithoutIgnore(s[1..], names, n);
    }
  }

  /**
   * Adding the name of the `j`-th remaining file to the removed names takes
   * out exactly that file.
   */
  lemma {:induction false} WithoutRemove(s: seq<Path>, names: set<string>, j: nat)
    requires j < |Without(s, names)| && UniqueNames(Without(s, names))
    ensures Without(s, names + {Name(Without(s, names)[j])}) ==
            Without(s, names)[..j] + Without(s, names)[j + 1..]
    decreases |s|, 1
  {
    if Name(s[0]) in names {
      WithoutSkip(s, names, Name(Without(s, names)[j]));
      WithoutRemove(s[1..], names, j);
    } else if j == 0 {
      WithoutRemoveHead(s, names);
    } else {
      WithoutRemoveLater(s, names, j);
    }
  }

  /** A file whose name is already removed stays out. */
  lemma WithoutSkip(s: seq<Path>, names: set<string>, n: string)
    requires s != [] && Name(s[0]) in names
    ensures Without(s, names) == Without(s[1..], names)
    ensures Without(s, names + {n}) == Without(s[1..], names + {n})
  {
  }

  lemma WithoutRemoveHead(s: seq<Path>, names: set<string>)
    requires s != [] && Name(s[0]) !in names && UniqueNames(Without(s, names))
    ensures Without(s, names + {Name(s[0])}) == Without(s, names)[1..]
  {
    var t := Without(s, names);
    var rest := Without(s[1..], names);
    assert t == [s[0]] + rest;
    assert Without(s, names + {Name(s[0])}) == Without(s[1..], names + {Name(s[0])});
    forall x | x in rest ensures Name(x) != Name(s[0]) {
      UniqueNamesHead(t, x);
    }
    WithoutIgnore(s[1..], names, Name(s[0]));
  }

  lemma WithoutRemoveLater(s: seq<Path>, names: set<string>, j: nat)
    requires s != [] && Name(s[0]) !in names
    requires 0 < j < |Without(s, names)| && UniqueNames(Without(s, names))
    ensures Without(s, names + {Name(Without(s, names)[j])}) ==
            Without(s, names)[..j] + Without(s, names)[j + 1..]
    decreases |s|, 0
  {
    var t := Without(s, names);
    var rest := Without(s[1..], names);
    WithoutKeeps(s, names);
    var n := Name(rest[j - 1]);
    LaterName(s[0], rest, j);
    WithoutRemove(s[1..], names, j - 1);
    WithoutConsRemoveAt(s, names, n, j);
  }

  /** A file whose name is not removed stays at the front. */
  lemma WithoutKeeps(s: seq<Path>, names: set<string>)
    requires s != [] && Name(s[0]) !in names
    ensures Without(s, names) == [s[0]] + Without(s[1..], names)
  {
  }

  /** In a list with unique names, the head's name differs from a later one, and the tail has unique names. */
  lemma LaterName(x: Path, rest: seq<Path>, j: nat)
    requires 0 < j <= |rest| && UniqueNames([x] + rest)
    ensures Name(x) != Name(rest[j - 1])
    ensures Name(rest[j - 1]) == Name(([x] + rest)[j])
    ensures UniqueNames(rest)
  {
    var t := [x] + rest;
    assert t[0] == x && t[j] == rest[j - 1];
    UniqueNamesTail(t);
    assert rest == t[1..];
  }

  lemma WithoutConsRemoveAt(s: seq<Path>, names: set<string>, n: string, j: nat)
    requires s != [] && Name(s[0]) !in names && Name(s[0]) != n
    requires 0 < j <= |Without(s[1..], names)|
    requires Without(s[1..], names + {n}) ==
             Without(s[1..], names)[..j - 1] + Without(s[1..], names)[j..]
    ensures Without(s, names + {n}) == Without(s, names)[..j] + Without(s, names)[j + 1..]
  {
    var rest := Without(s[1..], names);
    assert Without(s, names) == [s[0]] + rest;
    assert Without(s, names + {n}) == [s[0]] + Without(s[1..], names + {n});
    ConsRemoveAt(s[0], rest, j);
  }

  lemma ConsRemoveAt(x: Path, rest: seq<Path>, j: nat)
    requires 0 < j <= |rest|
    ensures ([x] + rest)[..j] + ([x] + rest)[j + 1..] == [x] + (rest[..j - 1] + rest[j..])
  {
    assert ([x] + rest)[..j] == [x] + rest[..j - 1];
    assert ([x] + rest)[j + 1..] == rest[j..];
  }

  lemma UniqueNamesTail(t: seq<Path>)
    requires t != [] && UniqueNames(t)
    ensures UniqueNames(t[1..])
  {
    forall a, b | 0 <= a < b < |t[1..]| ensures Name(t[1..][a]) != Name(t[1..][b]) {
      assert t[1..][a] == t[a + 1] && t[1..][b] == t[b + 1];
    }
  }

  lemma UniqueNamesHead(t: seq<Path>, x: Path)
    requires t != [] && UniqueNames(t) && x in t[1..]
    ensures Name(x) != Name(t[0])
  {
    var b :| 0 <= b < |t[1..]| && t[1..][b] == x;
    assert t[b + 1] == x;
  }

  // ---------------------------------------------------------------------
  // The matching pass, from the original lists
  // ---------------------------------------------------------------------

  /**
   * The labels the matching pass gives to `eng[k..]`, where `names` are the
   * names of the Spanish files. The English file at `k` is looked at; if a
   * Spanish file has its name it is paired and the next English file is
   * skipped (it moved into the slot the iterator has passed), so that one
   * stays English-only whatever its name.
   */
  function MatchLabels(eng: seq<Path>, names: set<string>, k: nat): (labels: seq<int>)
    ensures |labels| == if k <= |eng| then |eng| - k else 0
    ensures forall t :: 0 <= t < |labels| ==> labels[t] == Paired || labels[t] == EnglishOnly
    decreases |eng| - k
  {
    if k >= |eng| then []
    else if Name(eng[k]) in names then
      if k + 1 < |eng| then [Paired, EnglishOnly] + MatchLabels(eng, names, k + 2) else [Paired]
    else [EnglishOnly] + MatchLabels(eng, names, k + 1)
  }

  /** The labels of all English files. */
  function EnglishLabels(eng: seq<Path>, esp: seq<Path>): (labels: seq<int>)
    ensures |labels| == |eng|
    ensures forall t :: 0 <= t < |labels| ==> labels[t] == Paired || labels[t] == EnglishOnly
  {
    MatchLabels(eng, NamesOf(esp), 0)
  }

  /** The English files the matching pass pairs. */
  function Matched(eng: seq<Path>, esp: seq<Path>): seq<Path>
  {
    Pick(eng, EnglishLabels(eng, esp), Paired)
  }

  /** The English files left in `eng_files` after the matching pass. */
  function Unmatched(eng: seq<Path>, esp: seq<Path>): seq<Path>
  {
    Pick(eng, EnglishLabels(eng, esp), EnglishOnly)
  }

  /** The Spanish files left in `esp_files` after the matching pass. */
  function SpanishLeft(eng: seq<Path>, esp: seq<Path>): seq<Path>
  {
    Without(esp, NamesOf(Matched(eng, esp)))
  }

  /** The dictionary `classify_files` returns for well-formed lists. */
  function Classified(eng: seq<Path>, esp: seq<Path>): seq<Entry>
  {
    Tag(Matched(eng, esp), Paired) + Tag(Unmatched(eng, esp), EnglishOnly) + Tag(SpanishLeft(eng, esp), SpanishOnly)
  }

  /** The three-part dictionary labels its parts 1, 2 and 3. */
  lemma TagThree(m: seq<Path>, u: seq<Path>, l: seq<Path>, eng: seq<Path>, esp: seq<Path>)
    requires forall x :: x in m ==> x in eng && Name(x) in NamesOf(esp)
    requires forall x :: x in u ==> x in eng
    requires forall x :: x in l ==> x in esp
    ensures var c := Tag(m, Paired) + Tag(u, EnglishOnly) + Tag(l, SpanishOnly);
            && (forall q :: 0 <= q < |c| ==> c[q].kind in {Paired, EnglishOnly, SpanishOnly})
            && (forall q :: 0 <= q < |c| && c[q].kind != SpanishOnly ==> c[q].file in eng)
            && (forall q :: 0 <= q < |c| && c[q].kind == Paired ==> Name(c[q].file) in NamesOf(esp))
            && (forall q :: 0 <= q < |c| && c[q].kind == SpanishOnly ==> c[q].file in esp)
  {
    var c := Tag(m, Paired) + Tag(u, EnglishOnly) + Tag(l, SpanishOnly);
    forall q | 0 <= q < |c|
      ensures c[q].kind in {Paired, EnglishOnly, SpanishOnly}
      ensures c[q].kind != SpanishOnly ==> c[q].file in eng
      ensures c[q].kind == Paired ==> Name(c[q].file) in NamesOf(esp)
      ensures c[q].kind == SpanishOnly ==> c[q].file in esp
    {
      if q < |m| {
        assert c[q] == Entry(m[q], Paired) && m[q] in m;
      } else if q < |m| + |u| {
        assert c[q] == Entry(u[q - |m|], EnglishOnly) && u[q - |m|] in u;
      } else {
        assert c[q] == Entry(l[q - |m| - |u|], SpanishOnly) && l[q - |m| - |u|] in l;
      }
    }
  }

  // ---------------------------------------------------------------------
  // classify_files
  // ---------------------------------------------------------------------

  /**
   * `classify_files(eng_files, esp_files)`. The lists are returned as the
   * call leaves them; `valueError` is set when `eng_files.remove(f)` fails
   * because `f` was already removed (a second Spanish file with the same
   * name, impossible for directory listings). For well-formed lists the
   * result is the one described by `MatchLabels`.
   */
  method ClassifyFiles(engFiles: seq<Path>, espFiles: seq<Path>)
    returns (eng: seq<Path>, esp: seq<Path>, comb: seq<Entry>, valueError: bool)
    ensures UniqueKeys(comb)
    ensures forall k :: 0 <= k < |comb| ==> comb[k].kind in {Paired, EnglishOnly, SpanishOnly}
    ensures forall k :: 0 <= k < |comb| && comb[k].kind == Paired ==>
              comb[k].file in engFiles && Name(comb[k].file) in NamesOf(espFiles)
    ensures WellFormed(engFiles, espFiles) ==>
              !valueError &&
              eng == Unmatched(engFiles, espFiles) &&
              esp == SpanishLeft(engFiles, espFiles) &&
              comb == Classified(engFiles, espFiles) &&
              |esp| + |Matched(engFiles, espFiles)| == |espFiles|
  {
    ghost var wf := WellFormed(engFiles, espFiles);
    ghost var e0, s0 := engFiles, espFiles;
    ghost var names := NamesOf(espFiles);
    eng, esp, comb, valueError := engFiles, espFiles, [], false;
    ghost var k: nat := 0;
    ghost var done: seq<int> := [];
    var i := 0;
    if wf {
      ProgressStart(e0, s0);
    }
    while i < |eng|
      invariant UniqueKeys(comb)
      invariant forall t :: 0 <= t < |comb| ==> comb[t].kind == Paired
      invariant forall t :: 0 <= t < |comb| ==> comb[t].file in e0 && Name(comb[t].file) in names
      invariant forall x :: x in eng ==> x in e0
      invariant forall x :: x in esp ==> x in s0
      invariant !valueError
      invariant wf ==> Progress(e0, s0, k, done, eng, esp, comb, i)
      decreases |eng| - i
    {
      ghost var engS, espS, combS, iS := eng, esp, comb, i;
      var f := eng[i];
      i := i + 1;
      if wf {
        ProgressFacts(e0, s0, k, done, engS, espS, combS, iS);
      }
      NamesOfSubset(espS, s0);
      ghost var matched;
      eng, esp, comb, valueError, matched := MatchFile(f, eng, esp, comb);
      forall t | 0 <= t < |comb| ensures comb[t].kind == Paired && comb[t].file in e0 && Name(comb[t].file) in names {
        if comb[t] != Entry(f, Paired) {
          var a :| 0 <= a < |combS| && combS[a] == comb[t];
        }
      }
      if valueError {
        return;
      }
      if wf {
        if matched {
          done, k := PairedStep(e0, s0, k, done, engS, espS, combS, iS);
        } else {
          done, k := UnpairedStep(e0, s0, k, done, engS, espS, combS, iS);
        }
      }
    }
    if wf {
      LoopExit(e0, s0, k, done, eng, esp, comb, i);
    }
    ghost var combM := comb;
    if wf {
      UnmatchedFresh(e0, s0);
    }
    comb := AssignAll(comb, eng, EnglishOnly);
    ghost var combU := comb;
    if wf {
      SpanishLeftFresh(e0, s0);
    }
    comb := AssignAll(comb, esp, SpanishOnly);
    forall q | 0 <= q < |comb| && comb[q].kind == Paired
      ensures comb[q].file in engFiles && Name(comb[q].file) in names
    {
      assert comb[q] in combU;
      var a :| 0 <= a < |combU| && combU[a] == comb[q];
      assert combU[a] in combM;
    }
  }

  /**
   * The inner loop `for efile in esp_files` for one English file `f`. Every
   * Spanish file with the name of `f` makes `f` a paired key and is removed
   * together with `f`; a second one finds `f` gone and raises ValueError.
   * `matched` records whether a partner was found.
   */
  method MatchFile(f: Path, eng0: seq<Path>, esp0: seq<Path>, comb0: seq<Entry>)
    returns (eng: seq<Path>, esp: seq<Path>, comb: seq<Entry>, valueError: bool, ghost matched: bool)
    requires f in eng0 && UniqueKeys(comb0)
    ensures UniqueKeys(comb)
    ensures forall t :: 0 <= t < |comb| ==>
              comb[t] in comb0 || (comb[t] == Entry(f, Paired) && Name(f) in NamesOf(esp0))
    ensures |eng| <= |eng0|
    ensures forall x :: x in eng ==> x in eng0
    ensures forall x :: x in esp ==> x in esp0
    ensures matched <==> Name(f) in NamesOf(esp0)
    ensures !matched ==> eng == eng0 && esp == esp0 && comb == comb0 && !valueError
    ensures matched && UniqueNames(esp0) ==>
              !valueError &&
              eng == RemoveFirst(eng0, f) &&
              comb == Assign(comb0, f, Paired) &&
              esp == RemoveFirst(esp0, esp0[NameIndex(esp0, Name(f))])
  {
    eng, esp, comb, valueError, matched := eng0, esp0, comb0, false, false;
    var j := 0;
    while j < |esp|
      invariant UniqueKeys(comb)
      invariant forall t :: 0 <= t < |comb| ==>
                  comb[t] in comb0 || (comb[t] == Entry(f, Paired) && Name(f) in NamesOf(esp0))
      invariant |eng| <= |eng0|
      invariant forall x :: x in eng ==> x in eng0
      invariant forall x :: x in esp ==> x in esp0
      invariant !matched ==>
                  eng == eng0 && esp == esp0 && comb == comb0 && !valueError && j <= |esp| &&
                  forall t :: 0 <= t < j ==> Name(esp[t]) != Name(f)
      invariant matched ==> Name(f) in NamesOf(esp0)
      invariant matched && UniqueNames(esp0) ==>
                  !valueError &&
                  eng == RemoveFirst(eng0, f) &&
                  comb == Assign(comb0, f, Paired) &&
                  esp == RemoveFirst(esp0, esp0[NameIndex(esp0, Name(f))]) &&
                  forall t :: 0 <= t < |esp| ==> Name(esp[t]) != Name(f)
      decreases |esp| - j
    {
      var efile := esp[j];
      j := j + 1;
      if Name(f) == Name(efile) {
        ghost var first := !matched;
        ghost var comb1 := comb;
        assert efile in esp0;
        comb := Assign(comb, f, Paired);
        forall t | 0 <= t < |comb|
          ensures comb[t] in comb0 || (comb[t] == Entry(f, Paired) && Name(f) in NamesOf(esp0))
        {
          if comb[t] != Entry(f, Paired) {
            assert comb[t] == comb1[t];
          }
        }
        if f !in eng {
          valueError := true;
          matched := true;
          return;
        }
        eng := RemoveFirst(eng, f);
        esp := RemoveFirst(esp, efile);
        if first && UniqueNames(esp0) {
          assert NameIndex(esp0, Name(f)) == j - 1;
          MatchRemoved(esp0, j - 1);
        }
        matched := true;
      }
    }
    if !matched {
      forall x | x in esp0 ensures Name(x) != Name(f) {
        var a :| 0 <= a < |esp0| && esp0[a] == x;
      }
    }
  }

  /** In a list without repeats, removing the file at `jm` removes just that position. */
  lemma RemoveAt(s: seq<Path>, jm: nat)
    requires NoDup(s) && jm < |s|
    ensures RemoveFirst(s, s[jm]) == s[..jm] + s[jm + 1..]
  {
    assert s[jm] !in s[..jm];
    assert IndexOf(s, s[jm]) == jm;
  }

  /** In a list with unique names, removing the file at `jm` removes its name. */
  lemma MatchRemoved(s: seq<Path>, jm: nat)
    requires UniqueNames(s) && jm < |s|
    ensures forall t :: 0 <= t < |RemoveFirst(s, s[jm])| ==> Name(RemoveFirst(s, s[jm])[t]) != Name(s[jm])
  {
    UniqueNamesNoDup(s);
    RemoveAt(s, jm);
    var r := RemoveFirst(s, s[jm]);
    forall t | 0 <= t < |r| ensures Name(r[t]) != Name(s[jm]) {
      if t < jm {
        assert r[t] == s[t];
      } else {
        assert r[t] == s[t + 1];
      }
    }
  }

  /**
   * `for file in files: comb_file_list[file] = kind`. Entries of other kinds
   * come from the dictionary as it was; when the files are distinct and not
   * yet keys, they are appended in order.
   */
  method AssignAll(comb: seq<Entry>, files: seq<Path>, kind: int) returns (r: seq<Entry>)
    requires UniqueKeys(comb)
    ensures UniqueKeys(r)
    ensures forall q :: 0 <= q < |r| ==> r[q].kind == kind || r[q] in comb
    ensures NoDup(files) && (forall x :: x in files ==> x !in Keys(comb)) ==> r == comb + Tag(files, kind)
  {
    ghost var allNew := NoDup(files) && (forall x :: x in files ==> x !in Keys(comb));
    r := comb;
    var t := 0;
    while t < |files|
      invariant 0 <= t <= |files|
      invariant UniqueKeys(r)
      invariant forall q :: 0 <= q < |r| ==> r[q].kind == kind || r[q] in comb
      invariant allNew ==> r == comb + Tag(files[..t], kind)
    {
      if allNew {
        AssignNew(comb, files, t, kind);
      }
      AssignKinds(comb, r, files[t], kind);
      r := Assign(r, files[t], kind);
      t := t + 1;
    }
    assert files[..|files|] == files;
  }

  /** The next distinct new file goes at the end. */
  lemma AssignNew(comb: seq<Entry>, files: seq<Path>, t: nat, kind: int)
    requires UniqueKeys(comb) && t < |files|
    requires NoDup(files) && (forall x :: x in files ==> x !in Keys(comb))
    requires UniqueKeys(comb + Tag(files[..t], kind))
    ensures Assign(comb + Tag(files[..t], kind), files[t], kind) == comb + Tag(files[..t + 1], kind)
  {
    var r := comb + Tag(files[..t], kind);
    assert Keys(r) == Keys(comb) + files[..t];
    assert files[t] !in files[..t];
    assert Tag(files[..t + 1], kind) == Tag(files[..t], kind) + [Entry(files[t], kind)];
  }

  /** Assigning `kind` keeps every entry of another kind from `comb`. */
  lemma AssignKinds(comb: seq<Entry>, r: seq<Entry>, f: Path, kind: int)
    requires UniqueKeys(r)
    requires forall q :: 0 <= q < |r| ==> r[q].kind == kind || r[q] in comb
    ensures forall q :: 0 <= q < |Assign(r, f, kind)| ==> Assign(r, f, kind)[q].kind == kind || Assign(r, f, kind)[q] in comb
  {
    var r1 := Assign(r, f, kind);
    forall q | 0 <= q < |r1| ensures r1[q].kind == kind || r1[q] in comb {
      if r1[q].kind != kind {
        assert r1[q] == r[q];
      }
    }
  }

  /** The English-only files are distinct and none of them is paired. */
  lemma UnmatchedFresh(e0: seq<Path>, s0: seq<Path>)
    requires WellFormed(e0, s0)
    ensures NoDup(Unmatched(e0, s0))
    ensures forall x :: x in Unmatched(e0, s0) ==> x !in Keys(Tag(Matched(e0, s0), Paired))
  {
    UniqueNamesNoDup(e0);
    var labels := EnglishLabels(e0, s0);
    PickNoDup(e0, labels, EnglishOnly);
    PickDisjoint(e0, labels, EnglishOnly, Paired);
  }

  /** The Spanish files left are distinct and not among the English keys. */
  lemma SpanishLeftFresh(e0: seq<Path>, s0: seq<Path>)
    requires WellFormed(e0, s0)
    ensures NoDup(SpanishLeft(e0, s0))
    ensures forall x :: x in SpanishLeft(e0, s0) ==>
              x !in Keys(Tag(Matched(e0, s0), Paired) + Tag(Unmatched(e0, s0), EnglishOnly))
  {
    WithoutUnique(s0, NamesOf(Matched(e0, s0)));
    UniqueNamesNoDup(SpanishLeft(e0, s0));
    var d := Tag(Matched(e0, s0), Paired) + Tag(Unmatched(e0, s0), EnglishOnly);
    assert Keys(d) == Matched(e0, s0) + Unmatched(e0, s0);
  }

  // ---------------------------------------------------------------------
  // Steps of the proof of ClassifyFiles
  // ---------------------------------------------------------------------

  /**
   * The state of the matching pass after the English files `e0[..k]` have
   * the labels `done`: the lists and the dictionary as they are at that
   * point, and the iterator index `i` of `for f in eng_files`.
   */
  ghost predicate Progress(e0: seq<Path>, s0: seq<Path>, k: nat, done: seq<int>,
                           eng: seq<Path>, esp: seq<Path>, comb: seq<Entry>, i: nat)
  {
    k <= |e0| && |done| == k &&
    MatchLabels(e0, NamesOf(s0), 0) == done + MatchLabels(e0, NamesOf(s0), k) &&
    eng == Pick(e0[..k], done, EnglishOnly) + e0[k..] &&
    (i == |Pick(e0[..k], done, EnglishOnly)| || (k == |e0| && i == |eng| + 1)) &&
    esp == Without(s0, NamesOf(Pick(e0[..k], done, Paired))) &&
    comb == Tag(Pick(e0[..k], done, Paired), Paired) &&
    |esp| + |Pick(e0[..k], done, Paired)| == |s0|
  }

  lemma ProgressStart(e0: seq<Path>, s0: seq<Path>)
    ensures Progress(e0, s0, 0, [], e0, s0, [], 0)
  {
    WithoutNothing(s0);
    assert NamesOf([]) == {};
    assert e0[0..] == e0;
  }

  /** What the state before looking at `eng[i]` implies. */
  lemma ProgressFacts(e0: seq<Path>, s0: seq<Path>, k: nat, done: seq<int>,
                      eng: seq<Path>, esp: seq<Path>, comb: seq<Entry>, i: nat)
    requires WellFormed(e0, s0) && Progress(e0, s0, k, done, eng, esp, comb, i) && i < |eng|
    ensures k < |e0| && eng[i] == e0[k]
    ensures UniqueNames(esp)
  {
    OuterFacts(e0, s0, k, done);
  }

  /** `eng[i]` finds its partner: it is paired and the next English file is passed over. */
  lemma PairedStep(e0: seq<Path>, s0: seq<Path>, k: nat, done: seq<int>,
                   eng: seq<Path>, esp: seq<Path>, comb: seq<Entry>, i: nat)
    returns (done2: seq<int>, k2: nat)
    requires WellFormed(e0, s0) && Progress(e0, s0, k, done, eng, esp, comb, i) && i < |eng|
    requires UniqueKeys(comb) && Name(eng[i]) in NamesOf(esp)
    ensures Progress(e0, s0, k2, done2, RemoveFirst(eng, eng[i]),
                     RemoveFirst(esp, esp[NameIndex(esp, Name(eng[i]))]),
                     Assign(comb, eng[i], Paired), i + 1)
  {
    OuterFacts(e0, s0, k, done);
    var f := e0[k];
    var m := Pick(e0[..k], done, Paired);
    var jm := NameIndex(esp, Name(f));
    PairStep(e0, s0, k, done, eng, esp, comb, jm);
    NamesOfSnoc(m, f);
    if k + 1 < |e0| {
      AdvanceTwo(e0, s0, k, done);
      done2, k2 := done + [Paired, EnglishOnly], k + 2;
    } else {
      AdvanceLast(e0, s0, k, done);
      done2, k2 := done + [Paired], k + 1;
    }
  }

  /** `eng[i]` has no partner: it stays English-only. */
  lemma UnpairedStep(e0: seq<Path>, s0: seq<Path>, k: nat, done: seq<int>,
                     eng: seq<Path>, esp: seq<Path>, comb: seq<Entry>, i: nat)
    returns (done2: seq<int>, k2: nat)
    requires WellFormed(e0, s0) && Progress(e0, s0, k, done, eng, esp, comb, i) && i < |eng|
    requires Name(eng[i]) !in NamesOf(esp)
    ensures Progress(e0, s0, k2, done2, eng, esp, comb, i + 1)
  {
    OuterFacts(e0, s0, k, done);
    forall t | 0 <= t < |esp| ensures Name(esp[t]) != Name(e0[k]) {
      assert esp[t] in esp;
    }
    NoPartner(e0, s0, k, done, esp);
    done2, k2 := done + [EnglishOnly], k + 1;
  }

  /** What the state before looking at `e0[k]` implies. */
  lemma OuterFacts(e0: seq<Path>, s0: seq<Path>, k: nat, done: seq<int>)
    requires WellFormed(e0, s0) && k < |e0| && |done| == k
    ensures Name(e0[k]) !in NamesOf(Pick(e0[..k], done, Paired))
    ensures UniqueNames(Without(s0, NamesOf(Pick(e0[..k], done, Paired))))
  {
    var m := Pick(e0[..k], done, Paired);
    forall x | x in m ensures Name(x) != Name(e0[k]) {
      var a :| 0 <= a < k && e0[..k][a] == x;
      assert e0[a] == x;
    }
    WithoutUnique(s0, NamesOf(m));
  }

  /** The first match of the inner loop: the state after both removals. */
  lemma PairStep(e0: seq<Path>, s0: seq<Path>, k: nat, done: seq<int>,
                 engS: seq<Path>, espS: seq<Path>, combS: seq<Entry>, jm: nat)
    requires WellFormed(e0, s0) && k < |e0| && |done| == k
    requires engS == Pick(e0[..k], done, EnglishOnly) + e0[k..]
    requires espS == Without(s0, NamesOf(Pick(e0[..k], done, Paired)))
    requires combS == Tag(Pick(e0[..k], done, Paired), Paired) && UniqueKeys(combS)
    requires |espS| + |Pick(e0[..k], done, Paired)| == |s0|
    requires jm < |espS| && Name(espS[jm]) == Name(e0[k])
    ensures e0[k] in engS
    ensures RemoveFirst(engS, e0[k]) == Pick(e0[..k], done, EnglishOnly) + e0[k + 1..]
    ensures Assign(combS, e0[k], Paired) == Tag(Pick(e0[..k], done, Paired) + [e0[k]], Paired)
    ensures RemoveFirst(espS, espS[jm]) == Without(s0, NamesOf(Pick(e0[..k], done, Paired)) + {Name(e0[k])})
    ensures Name(e0[k]) in NamesOf(s0)
    ensures forall t :: 0 <= t < |RemoveFirst(espS, espS[jm])| ==> Name(RemoveFirst(espS, espS[jm])[t]) != Name(e0[k])
    ensures |RemoveFirst(espS, espS[jm])| + |Pick(e0[..k], done, Paired)| + 1 == |s0|
  {
    UniqueNamesNoDup(e0);
    PairEnglish(e0, k, done, engS);
    PairDictionary(e0, k, done, combS);
    WithoutUnique(s0, NamesOf(Pick(e0[..k], done, Paired)));
    PairSpanish(s0, NamesOf(Pick(e0[..k], done, Paired)), espS, jm);
  }

  /** The English file being looked at is the first copy of itself in `eng_files`. */
  lemma PairEnglish(e0: seq<Path>, k: nat, done: seq<int>, engS: seq<Path>)
    requires NoDup(e0) && k < |e0| && |done| == k
    requires engS == Pick(e0[..k], done, EnglishOnly) + e0[k..]
    ensures e0[k] in engS
    ensures RemoveFirst(engS, e0[k]) == Pick(e0[..k], done, EnglishOnly) + e0[k + 1..]
  {
    var p2 := Pick(e0[..k], done, EnglishOnly);
    var f := e0[k];
    assert e0[k..] == [f] + e0[k + 1..];
    assert engS[|p2|] == f;
    assert f !in p2 by {
      forall x | x in p2 ensures x != f {
        var a :| 0 <= a < k && e0[..k][a] == x;
        assert e0[a] == x;
      }
    }
    assert engS[..|p2|] == p2;
    assert IndexOf(engS, f) == |p2|;
    assert engS[|p2| + 1..] == e0[k + 1..];
  }

  /** The paired English file is a new key of the dictionary. */
  lemma PairDictionary(e0: seq<Path>, k: nat, done: seq<int>, combS: seq<Entry>)
    requires NoDup(e0) && k < |e0| && |done| == k
    requires combS == Tag(Pick(e0[..k], done, Paired), Paired) && UniqueKeys(combS)
    ensures Assign(combS, e0[k], Paired) == Tag(Pick(e0[..k], done, Paired) + [e0[k]], Paired)
  {
    var m := Pick(e0[..k], done, Paired);
    var f := e0[k];
    assert f !in m by {
      forall x | x in m ensures x != f {
        var a :| 0 <= a < k && e0[..k][a] == x;
        assert e0[a] == x;
      }
    }
    assert Keys(combS) == m;
    assert Tag(m + [f], Paired) == Tag(m, Paired) + [Entry(f, Paired)];
  }

  /** Removing the partner from the Spanish files that are left. */
  lemma PairSpanish(s0: seq<Path>, taken: set<string>, espS: seq<Path>, jm: nat)
    requires espS == Without(s0, taken) && UniqueNames(espS) && jm < |espS|
    ensures RemoveFirst(espS, espS[jm]) == Without(s0, taken + {Name(espS[jm])})
    ensures Name(espS[jm]) in NamesOf(s0)
    ensures forall t :: 0 <= t < |RemoveFirst(espS, espS[jm])| ==> Name(RemoveFirst(espS, espS[jm])[t]) != Name(espS[jm])
  {
    UniqueNamesNoDup(espS);
    RemoveAt(espS, jm);
    WithoutRemove(s0, taken, jm);
    MatchRemoved(espS, jm);
    assert espS[jm] in espS;
  }

  /** Without a same-named Spanish file, `e0[k]` is English-only. */
  lemma NoPartner(e0: seq<Path>, s0: seq<Path>, k: nat, done: seq<int>, espS: seq<Path>)
    requires WellFormed(e0, s0) && k < |e0| && |done| == k
    requires espS == Without(s0, NamesOf(Pick(e0[..k], done, Paired)))
    requires forall t :: 0 <= t < |espS| ==> Name(espS[t]) != Name(e0[k])
    requires MatchLabels(e0, NamesOf(s0), 0) == done + MatchLabels(e0, NamesOf(s0), k)
    ensures MatchLabels(e0, NamesOf(s0), 0) == (done + [EnglishOnly]) + MatchLabels(e0, NamesOf(s0), k + 1)
    ensures Pick(e0[..k + 1], done + [EnglishOnly], EnglishOnly) + e0[k + 1..] == Pick(e0[..k], done, EnglishOnly) + e0[k..]
    ensures Pick(e0[..k + 1], done + [EnglishOnly], Paired) == Pick(e0[..k], done, Paired)
    ensures |Pick(e0[..k + 1], done + [EnglishOnly], EnglishOnly)| == |Pick(e0[..k], done, EnglishOnly)| + 1
  {
    NoPartnerName(e0, s0, k, done, espS);
    AdvanceOne(e0, s0, k, done);
  }

  /** An English file without a partner: labelled English-only and kept. */
  lemma AdvanceOne(e0: seq<Path>, s0: seq<Path>, k: nat, done: seq<int>)
    requires k < |e0| && |done| == k
    requires Name(e0[k]) !in NamesOf(s0)
    requires MatchLabels(e0, NamesOf(s0), 0) == done + MatchLabels(e0, NamesOf(s0), k)
    ensures MatchLabels(e0, NamesOf(s0), 0) == (done + [EnglishOnly]) + MatchLabels(e0, NamesOf(s0), k + 1)
    ensures Pick(e0[..k + 1], done + [EnglishOnly], EnglishOnly) + e0[k + 1..] == Pick(e0[..k], done, EnglishOnly) + e0[k..]
    ensures Pick(e0[..k + 1], done + [EnglishOnly], Paired) == Pick(e0[..k], done, Paired)
    ensures |Pick(e0[..k + 1], done + [EnglishOnly], EnglishOnly)| == |Pick(e0[..k], done, EnglishOnly)| + 1
  {
    var names := NamesOf(s0);
    assert MatchLabels(e0, names, k) == [EnglishOnly] + MatchLabels(e0, names, k + 1);
    assert done + ([EnglishOnly] + MatchLabels(e0, names, k + 1)) == (done + [EnglishOnly]) + MatchLabels(e0, names, k + 1);
    KeepOne(e0, k, done);
  }

  /** Labelling `e0[k]` English-only moves it from the unvisited part to the English-only part. */
  lemma KeepOne(e0: seq<Path>, k: nat, done: seq<int>)
    requires k < |e0| && |done| == k
    ensures Pick(e0[..k + 1], done + [EnglishOnly], EnglishOnly) + e0[k + 1..] == Pick(e0[..k], done, EnglishOnly) + e0[k..]
    ensures Pick(e0[..k + 1], done + [EnglishOnly], Paired) == Pick(e0[..k], done, Paired)
    ensures |Pick(e0[..k + 1], done + [EnglishOnly], EnglishOnly)| == |Pick(e0[..k], done, EnglishOnly)| + 1
  {
    var f := e0[k];
    assert e0[..k + 1] == e0[..k] + [f];
    PickSnoc(e0[..k], done, f, EnglishOnly, EnglishOnly);
    PickSnoc(e0[..k], done, f, EnglishOnly, Paired);
    var front := Pick(e0[..k], done, EnglishOnly);
    assert e0[k..] == [f] + e0[k + 1..];
    assert (front + [f]) + e0[k + 1..] == front + ([f] + e0[k + 1..]);
  }

  /** No Spanish file is left with the name of `e0[k]`, so none ever had it. */
  lemma NoPartnerName(e0: seq<Path>, s0: seq<Path>, k: nat, done: seq<int>, espS: seq<Path>)
    requires WellFormed(e0, s0) && k < |e0| && |done| == k
    requires espS == Without(s0, NamesOf(Pick(e0[..k], done, Paired)))
    requires forall t :: 0 <= t < |espS| ==> Name(espS[t]) != Name(e0[k])
    ensures Name(e0[k]) !in NamesOf(s0)
  {
    OuterFacts(e0, s0, k, done);
    var taken := NamesOf(Pick(e0[..k], done, Paired));
    forall x | x in s0 ensures Name(x) != Name(e0[k]) {
      if Name(x) !in taken {
        assert x in espS;
        var b :| 0 <= b < |espS| && espS[b] == x;
        assert Name(espS[b]) != Name(e0[k]);
      }
    }
  }

  /** A pair at `e0[k]` with a file after it: that next file is skipped. */
  lemma AdvanceTwo(e0: seq<Path>, s0: seq<Path>, k: nat, done: seq<int>)
    requires k + 1 < |e0| && |done| == k
    requires Name(e0[k]) in NamesOf(s0)
    requires MatchLabels(e0, NamesOf(s0), 0) == done + MatchLabels(e0, NamesOf(s0), k)
    ensures MatchLabels(e0, NamesOf(s0), 0) == (done + [Paired, EnglishOnly]) + MatchLabels(e0, NamesOf(s0), k + 2)
    ensures Pick(e0[..k + 2], done + [Paired, EnglishOnly], EnglishOnly) + e0[k + 2..] ==
            Pick(e0[..k], done, EnglishOnly) + e0[k + 1..]
    ensures Pick(e0[..k + 2], done + [Paired, EnglishOnly], Paired) == Pick(e0[..k], done, Paired) + [e0[k]]
    ensures |Pick(e0[..k + 2], done + [Paired, EnglishOnly], EnglishOnly)| == |Pick(e0[..k], done, EnglishOnly)| + 1
  {
    assert e0[..k + 1] == e0[..k] + [e0[k]];
    assert e0[..k + 2] == e0[..k + 1] + [e0[k + 1]];
    assert done + [Paired, EnglishOnly] == (done + [Paired]) + [EnglishOnly];
    PickSnoc(e0[..k], done, e0[k], Paired, EnglishOnly);
    PickSnoc(e0[..k], done, e0[k], Paired, Paired);
    PickSnoc(e0[..k + 1], done + [Paired], e0[k + 1], EnglishOnly, EnglishOnly);
    PickSnoc(e0[..k + 1], done + [Paired], e0[k + 1], EnglishOnly, Paired);
    assert e0[k + 1..] == [e0[k + 1]] + e0[k + 2..];
  }

  /** A pair at the last English file. */
  lemma AdvanceLast(e0: seq<Path>, s0: seq<Path>, k: nat, done: seq<int>)
    requires k + 1 == |e0| && |done| == k
    requires Name(e0[k]) in NamesOf(s0)
    requires MatchLabels(e0, NamesOf(s0), 0) == done + MatchLabels(e0, NamesOf(s0), k)
    ensures MatchLabels(e0, NamesOf(s0), 0) == (done + [Paired]) + MatchLabels(e0, NamesOf(s0), k + 1)
    ensures Pick(e0[..k + 1], done + [Paired], EnglishOnly) + e0[k + 1..] == Pick(e0[..k], done, EnglishOnly) + e0[k + 1..]
    ensures Pick(e0[..k + 1], done + [Paired], Paired) == Pick(e0[..k], done, Paired) + [e0[k]]
  {
    assert e0[..k + 1] == e0[..k] + [e0[k]];
    PickSnoc(e0[..k], done, e0[k], Paired, EnglishOnly);
    PickSnoc(e0[..k], done, e0[k], Paired, Paired);
  }

  /** When the outer loop stops, every English file has been labelled. */
  lemma LoopExit(e0: seq<Path>, s0: seq<Path>, k: nat, done: seq<int>,
                 eng: seq<Path>, esp: seq<Path>, comb: seq<Entry>, i: nat)
    requires Progress(e0, s0, k, done, eng, esp, comb, i) && i >= |eng|
    ensures k == |e0|
    ensures done == EnglishLabels(e0, s0)
    ensures eng == Unmatched(e0, s0)
    ensures esp == SpanishLeft(e0, s0)
    ensures comb == Tag(Matched(e0, s0), Paired)
    ensures |esp| + |Matched(e0, s0)| == |s0|
  {
    assert e0[..k] == e0;
  }


  // ---------------------------------------------------------------------
  // What the matching pass computes
  // ---------------------------------------------------------------------

  /** A file is picked exactly when its label is the one asked for. */
  lemma {:induction false} PickMembers(s: seq<Path>, labels: seq<int>, kind: int)
    requires |labels| == |s|
    ensures forall x :: x in Pick(s, labels, kind) <==>
              exists k :: 0 <= k < |s| && s[k] == x && labels[k] == kind
    decreases |s|
  {
    if s != [] {
      var n := |s|;
      PickMembers(s[..n - 1], labels[..n - 1], kind);
      forall x ensures x in Pick(s, labels, kind) <==> exists k :: 0 <= k < n && s[k] == x && labels[k] == kind {
        if x in Pick(s[..n - 1], labels[..n - 1], kind) {
          var k :| 0 <= k < n - 1 && s[..n - 1][k] == x && labels[..n - 1][k] == kind;
          assert s[k] == x && labels[k] == kind;
        }
        if exists k :: 0 <= k < n && s[k] == x && labels[k] == kind {
          var k :| 0 <= k < n && s[k] == x && labels[k] == kind;
          if k < n - 1 {
            assert s[..n - 1][k] == x && labels[..n - 1][k] == kind;
          }
        }
      }
    }
  }

  lemma {:induction false} PickUniqueNames(s: seq<Path>, labels: seq<int>, kind: int)
    requires |labels| == |s| && UniqueNames(s)
    ensures UniqueNames(Pick(s, labels, kind))
    decreases |s|
  {
    if s != [] {
      var n := |s|;
      var front := Pick(s[..n - 1], labels[..n - 1], kind);
      assert UniqueNames(s[..n - 1]);
      PickUniqueNames(s[..n - 1], labels[..n - 1], kind);
      if labels[n - 1] == kind {
        PickMembers(s[..n - 1], labels[..n - 1], kind);
        var r := front + [s[n - 1]];
        forall a, b | 0 <= a < b < |r| ensures Name(r[a]) != Name(r[b]) {
          if b == |r| - 1 {
            assert r[a] == front[a] && front[a] in front;
            var k :| 0 <= k < n - 1 && s[..n - 1][k] == r[a] && labels[..n - 1][k] == kind;
            assert s[k] == r[a];
          } else {
            assert r[a] == front[a] && r[b] == front[b];
          }
        }
      }
    }
  }

  /** The labels from offset `s` on, read one English file at a time. */
  lemma {:induction false} MatchLabelsAt(eng: seq<Path>, names: set<string>, s: nat, t: nat)
    requires s + t < |eng|
    ensures MatchLabels(eng, names, s)[t] == Paired ==> Name(eng[s + t]) in names
    ensures Name(eng[s + t]) !in names ==> MatchLabels(eng, names, s)[t] == EnglishOnly
    ensures MatchLabels(eng, names, s)[t] == Paired && s + t + 1 < |eng| ==>
              MatchLabels(eng, names, s)[t + 1] == EnglishOnly
    ensures MatchLabels(eng, names, s)[t] == EnglishOnly && Name(eng[s + t]) in names ==>
              t > 0 && MatchLabels(eng, names, s)[t - 1] == Paired
    decreases t
  {
    var ls := MatchLabels(eng, names, s);
    if Name(eng[s]) in names {
      if s + 1 < |eng| {
        var rest := MatchLabels(eng, names, s + 2);
        assert ls == [Paired, EnglishOnly] + rest;
        if t >= 2 {
          MatchLabelsAt(eng, names, s + 2, t - 2);
          assert ls[t] == rest[t - 2];
          if t + 1 < |ls| {
            assert ls[t + 1] == rest[t - 1];
          }
          if t > 2 {
            assert ls[t - 1] == rest[t - 3];
          }
        }
      }
    } else {
      var rest := MatchLabels(eng, names, s + 1);
      assert ls == [EnglishOnly] + rest;
      if t >= 1 {
        MatchLabelsAt(eng, names, s + 1, t - 1);
        assert ls[t] == rest[t - 1];
        if t + 1 < |ls| {
          assert ls[t + 1] == rest[t];
        }
        if t > 1 {
          assert ls[t - 1] == rest[t - 2];
        }
      }
    }
  }

  /**
   * The meaning of the labels. A paired English file has a Spanish
   * partner; one without a partner is English-only; the file after a paired
   * one is never compared and so is English-only; and an English-only file
   * with a partner is always one that came right after a paired file. The
   * four facts determine every label from the names alone.
   */
  lemma EnglishLabelsMeaning(eng: seq<Path>, esp: seq<Path>, k: nat)
    requires k < |eng|
    ensures EnglishLabels(eng, esp)[k] == Paired ==> Name(eng[k]) in NamesOf(esp)
    ensures Name(eng[k]) !in NamesOf(esp) ==> EnglishLabels(eng, esp)[k] == EnglishOnly
    ensures EnglishLabels(eng, esp)[k] == Paired && k + 1 < |eng| ==> EnglishLabels(eng, esp)[k + 1] == EnglishOnly
    ensures EnglishLabels(eng, esp)[k] == EnglishOnly && Name(eng[k]) in NamesOf(esp) ==>
              k > 0 && EnglishLabels(eng, esp)[k - 1] == Paired
  {
    MatchLabelsAt(eng, NamesOf(esp), 0, k);
  }

  /** The names of the paired English files are names of Spanish files. */
  lemma MatchedNames(eng: seq<Path>, esp: seq<Path>)
    ensures NamesOf(Matched(eng, esp)) <= NamesOf(esp)
  {
    PickMembers(eng, EnglishLabels(eng, esp), Paired);
    forall x | x in Matched(eng, esp) ensures Name(x) in NamesOf(esp) {
      var k :| 0 <= k < |eng| && eng[k] == x && EnglishLabels(eng, esp)[k] == Paired;
      EnglishLabelsMeaning(eng, esp, k);
    }
  }

  /** Each paired name takes exactly one Spanish file with it. */
  lemma {:induction false} WithoutCount(s0: seq<Path>, m: seq<Path>)
    requires UniqueNames(s0) && UniqueNames(m) && NamesOf(m) <= NamesOf(s0)
    ensures |Without(s0, NamesOf(m))| + |m| == |s0|
    decreases |m|
  {
    if m == [] {
      WithoutNothing(s0);
      assert NamesOf(m) == {};
    } else {
      var front := m[..|m| - 1];
      var x := m[|m| - 1];
      assert m == front + [x];
      assert UniqueNames(front);
      NamesOfSnoc(front, x);
      WithoutCount(s0, front);
      WithoutUnique(s0, NamesOf(front));
      assert Name(x) !in NamesOf(front) by {
        forall y | y in front ensures Name(y) != Name(x) {
          var a :| 0 <= a < |front| && front[a] == y;
          assert m[a] == y;
        }
      }
      assert Name(x) in NamesOf(s0);
      WithoutDropOne(s0, NamesOf(front), Name(x));
    }
  }

  /** Dropping one more name, which some file carries, drops exactly one file. */
  lemma WithoutDropOne(s: seq<Path>, names: set<string>, n: string)
    requires UniqueNames(Without(s, names)) && n !in names && n in NamesOf(s)
    ensures |Without(s, names + {n})| == |Without(s, names)| - 1
  {
    var t := Without(s, names);
    var y :| y in s && Name(y) == n;
    assert y in t;
    var j :| 0 <= j < |t| && t[j] == y;
    WithoutRemove(s, names, j);
    assert |t[..j] + t[j + 1..]| == |t| - 1;
  }

  /** Every English file is a key, with the label the matching pass gave it. */
  lemma ClassifiedEnglish(eng: seq<Path>, esp: seq<Path>, k: nat)
    requires k < |eng|
    ensures Entry(eng[k], EnglishLabels(eng, esp)[k]) in Classified(eng, esp)
    ensures EnglishLabels(eng, esp)[k] in {Paired, EnglishOnly}
  {
    var labels := EnglishLabels(eng, esp);
    PickMembers(eng, labels, labels[k]);
    var c := Classified(eng, esp);
    if labels[k] == Paired {
      var i := IndexOf(Matched(eng, esp), eng[k]);
      assert c[i] == Entry(eng[k], Paired);
    } else {
      var i := IndexOf(Unmatched(eng, esp), eng[k]);
      assert c[|Matched(eng, esp)| + i] == Entry(eng[k], EnglishOnly);
    }
  }

  /**
   * A Spanish file is a key exactly when no paired English file has its
   * name, and its label is then 3; the Spanish files that were paired never
   * become keys.
   */
  lemma ClassifiedSpanish(eng: seq<Path>, esp: seq<Path>, x: Path)
    requires WellFormed(eng, esp) && x in esp
    ensures Name(x) !in NamesOf(Matched(eng, esp)) ==> Entry(x, SpanishOnly) in Classified(eng, esp)
    ensures Name(x) in NamesOf(Matched(eng, esp)) ==> x !in Keys(Classified(eng, esp))
  {
    var c := Classified(eng, esp);
    var m, u, l := Matched(eng, esp), Unmatched(eng, esp), SpanishLeft(eng, esp);
    assert Keys(c) == m + u + l;
    if Name(x) !in NamesOf(m) {
      var i := IndexOf(l, x);
      assert c[|m| + |u| + i] == Entry(x, SpanishOnly);
    }
  }

  /**
   * Every key of the dictionary is one of the input files: an English file
   * or a Spanish file that was not paired.
   */
  lemma ClassifiedKeys(eng: seq<Path>, esp: seq<Path>)
    ensures forall x :: x in Keys(Classified(eng, esp)) <==> x in eng || x in SpanishLeft(eng, esp)
  {
    var labels := EnglishLabels(eng, esp);
    var m, u, l := Matched(eng, esp), Unmatched(eng, esp), SpanishLeft(eng, esp);
    assert Keys(Classified(eng, esp)) == m + u + l;
    PickMembers(eng, labels, Paired);
    PickMembers(eng, labels, EnglishOnly);
    forall x | x in eng ensures x in m || x in u {
      var k :| 0 <= k < |eng| && eng[k] == x;
      ClassifiedEnglish(eng, esp, k);
    }
  }

  /**
   * Counting: a paired entry stands for two input files and every other
   * entry for one, so `2·#1 + #2 + #3 = |eng| + |esp|`.
   */
  lemma ClassifiedCount(eng: seq<Path>, esp: seq<Path>)
    requires WellFormed(eng, esp)
    ensures 2 * Count(Classified(eng, esp), Paired) + Count(Classified(eng, esp), EnglishOnly) +
            Count(Classified(eng, esp), SpanishOnly) == |eng| + |esp|
  {
    var labels := EnglishLabels(eng, esp);
    var m, u, l := Matched(eng, esp), Unmatched(eng, esp), SpanishLeft(eng, esp);
    var c := Classified(eng, esp);
    forall kind | kind in {Paired, EnglishOnly, SpanishOnly}
      ensures Count(c, kind) ==
              (if kind == Paired then |m| else 0) + (if kind == EnglishOnly then |u| else 0) +
              (if kind == SpanishOnly then |l| else 0)
    {
      CountAppend(Tag(m, Paired) + Tag(u, EnglishOnly), Tag(l, SpanishOnly), kind);
      CountAppend(Tag(m, Paired), Tag(u, EnglishOnly), kind);
      CountTag(m, Paired, kind);
      CountTag(u, EnglishOnly, kind);
      CountTag(l, SpanishOnly, kind);
    }
    PickSizes(eng, labels, Paired, EnglishOnly);
    PickUniqueNames(eng, labels, Paired);
    MatchedNames(eng, esp);
    WithoutCount(esp, m);
  }

  /**
   * The skip, on the smallest input: English `[a, b]` and Spanish `[a, b]`
   * give `a -> 1`, `b -> 2` and the Spanish `b -> 3`, although `b` has a
   * partner.
   */
  lemma SkipExample(ea: Path, eb: Path, sa: Path, sb: Path)
    requires Name(ea) == Name(sa) == "a" && Name(eb) == Name(sb) == "b"
    ensures Classified([ea, eb], [sa, sb]) == [Entry(ea, Paired), Entry(eb, EnglishOnly), Entry(sb, SpanishOnly)]
    ensures Name(eb) in NamesOf([sa, sb])
  {
    var eng, esp := [ea, eb], [sa, sb];
    NamesOfPair(sa, sb);
    assert Name(eng[0]) in NamesOf(esp) && MatchLabels(eng, NamesOf(esp), 2) == [];
    assert EnglishLabels(eng, esp) == [Paired, EnglishOnly];
    PickPair(ea, eb, Paired, EnglishOnly, Paired);
    PickPair(ea, eb, Paired, EnglishOnly, EnglishOnly);
    assert Matched(eng, esp) == [ea] && Unmatched(eng, esp) == [eb];
    NamesOfOne(ea);
    WithoutPair(sa, sb, {"a"});
    assert SpanishLeft(eng, esp) == [sb];
    TagOne(ea, Paired);
    TagOne(eb, EnglishOnly);
    TagOne(sb, SpanishOnly);
    Singletons(Entry(ea, Paired), Entry(eb, EnglishOnly), Entry(sb, SpanishOnly));
  }

  lemma TagOne(x: Path, kind: int)
    ensures Tag([x], kind) == [Entry(x, kind)]
  {
  }

  lemma NamesOfOne(x: Path)
    ensures NamesOf([x]) == {Name(x)}
  {
    assert x in [x];
  }

  lemma NamesOfPair(x: Path, y: Path)
    ensures NamesOf([x, y]) == {Name(x), Name(y)}
  {
    assert x in [x, y] && y in [x, y];
  }

  lemma PickPair(x: Path, y: Path, l1: int, l2: int, kind: int)
    ensures Pick([x, y], [l1, l2], kind) == (if l1 == kind then [x] else []) + (if l2 == kind then [y] else [])
  {
    assert [x, y][..1] == [x] && [x][..0] == [];
    assert [l1, l2][..1] == [l1] && [l1][..0] == [];
  }

  lemma WithoutPair(x: Path, y: Path, names: set<string>)
    ensures Without([x, y], names) == (if Name(x) in names then [] else [x]) + (if Name(y) in names then [] else [y])
  {
    assert [x, y][1..] == [y] && [y][1..] == [];
  }

  // ---------------------------------------------------------------------
  // Pairing by name lookup
  // ---------------------------------------------------------------------

  /**
   * The pairing the script is meant to compute: an English file is paired
   * exactly when some Spanish file has its name, and a Spanish file is left
   * over exactly when no English file has its name.
   */
  function LookupLabels(eng: seq<Path>, esp: seq<Path>): (labels: seq<int>)
    ensures |labels| == |eng|
    ensures forall k :: 0 <= k < |eng| ==>
              labels[k] == (if Name(eng[k]) in NamesOf(esp) then Paired else EnglishOnly)
  {
    seq(|eng|, k requires 0 <= k < |eng| => if Name(eng[k]) in NamesOf(esp) then Paired else EnglishOnly)
  }

  /** The dictionary pairing by lookup produces. */
  function LookupClassified(eng: seq<Path>, esp: seq<Path>): seq<Entry>
  {
    var paired := Pick(eng, LookupLabels(eng, esp), Paired);
    Tag(paired, Paired) + Tag(Pick(eng, LookupLabels(eng, esp), EnglishOnly), EnglishOnly) +
    Tag(Without(esp, NamesOf(paired)), SpanishOnly)
  }

  /**
   * With lookup by name every English file with a partner is paired, every
   * Spanish file with a partner is consumed, and the counting identity holds.
   */
  lemma LookupPairsAll(eng: seq<Path>, esp: seq<Path>)
    requires WellFormed(eng, esp)
    ensures forall x :: x in eng ==>
              Entry(x, if Name(x) in NamesOf(esp) then Paired else EnglishOnly) in LookupClassified(eng, esp)
    ensures forall x :: x in esp ==>
              (Name(x) in NamesOf(eng) <==> x !in Keys(LookupClassified(eng, esp)))
    ensures 2 * Count(LookupClassified(eng, esp), Paired) + Count(LookupClassified(eng, esp), EnglishOnly) +
            Count(LookupClassified(eng, esp), SpanishOnly) == |eng| + |esp|
  {
    LookupEnglish(eng, esp);
    LookupSpanish(eng, esp);
    LookupCount(eng, esp);
  }

  /** Every English file is a key, paired exactly when its name is among the Spanish ones. */
  lemma LookupEnglish(eng: seq<Path>, esp: seq<Path>)
    ensures forall x :: x in eng ==>
              Entry(x, if Name(x) in NamesOf(esp) then Paired else EnglishOnly) in LookupClassified(eng, esp)
  {
    var labels := LookupLabels(eng, esp);
    var m := Pick(eng, labels, Paired);
    var u := Pick(eng, labels, EnglishOnly);
    var c := LookupClassified(eng, esp);
    PickMembers(eng, labels, Paired);
    PickMembers(eng, labels, EnglishOnly);
    forall x | x in eng
      ensures Entry(x, if Name(x) in NamesOf(esp) then Paired else EnglishOnly) in c
    {
      if Name(x) in NamesOf(esp) {
        var i := IndexOf(m, x);
        assert c[i] == Entry(x, Paired);
      } else {
        var i := IndexOf(u, x);
        assert c[|m| + i] == Entry(x, EnglishOnly);
      }
    }
  }

  /** A Spanish file is a key exactly when no English file has its name. */
  lemma LookupSpanish(eng: seq<Path>, esp: seq<Path>)
    requires WellFormed(eng, esp)
    ensures forall x :: x in esp ==>
              (Name(x) in NamesOf(eng) <==> x !in Keys(LookupClassified(eng, esp)))
  {
    var labels := LookupLabels(eng, esp);
    var m := Pick(eng, labels, Paired);
    var u := Pick(eng, labels, EnglishOnly);
    var l := Without(esp, NamesOf(m));
    var c := LookupClassified(eng, esp);
    assert Keys(c) == m + u + l;
    PickMembers(eng, labels, Paired);
    PickMembers(eng, labels, EnglishOnly);
    forall x | x in esp ensures Name(x) in NamesOf(eng) <==> x !in Keys(c) {
      if Name(x) in NamesOf(eng) {
        var y :| y in eng && Name(y) == Name(x);
        assert y in m;
      } else {
        forall y | y in m ensures Name(y) != Name(x) {
        }
      }
    }
  }

  /** Each pair accounts for two files, every other key for one. */
  lemma LookupCount(eng: seq<Path>, esp: seq<Path>)
    requires WellFormed(eng, esp)
    ensures 2 * Count(LookupClassified(eng, esp), Paired) + Count(LookupClassified(eng, esp), EnglishOnly) +
            Count(LookupClassified(eng, esp), SpanishOnly) == |eng| + |esp|
  {
    var labels := LookupLabels(eng, esp);
    var m := Pick(eng, labels, Paired);
    var u := Pick(eng, labels, EnglishOnly);
    var l := Without(esp, NamesOf(m));
    var c := LookupClassified(eng, esp);
    PickMembers(eng, labels, Paired);
    forall kind | kind in {Paired, EnglishOnly, SpanishOnly}
      ensures Count(c, kind) ==
              (if kind == Paired then |m| else 0) + (if kind == EnglishOnly then |u| else 0) +
              (if kind == SpanishOnly then |l| else 0)
    {
      CountAppend(Tag(m, Paired) + Tag(u, EnglishOnly), Tag(l, SpanishOnly), kind);
      CountAppend(Tag(m, Paired), Tag(u, EnglishOnly), kind);
      CountTag(m, Paired, kind);
      CountTag(u, EnglishOnly, kind);
      CountTag(l, SpanishOnly, kind);
    }
    PickSizes(eng, labels, Paired, EnglishOnly);
    PickUniqueNames(eng, labels, Paired);
    forall x | x in m ensures Name(x) in NamesOf(esp) {
    }
    WithoutCount(esp, m);
  }

  /** On the example of the skip, lookup by name pairs both files. */
  lemma LookupExample(ea: Path, eb: Path, sa: Path, sb: Path)
    requires Name(ea) == Name(sa) == "a" && Name(eb) == Name(sb) == "b"
    ensures LookupClassified([ea, eb], [sa, sb]) == [Entry(ea, Paired), Entry(eb, Paired)]
  {
    NamesOfPair(sa, sb);
    assert LookupLabels([ea, eb], [sa, sb]) == [Paired, Paired];
    PickPair(ea, eb, Paired, Paired, Paired);
    PickPair(ea, eb, Paired, Paired, EnglishOnly);
    NamesOfPair(ea, eb);
    WithoutPair(sa, sb, {"a", "b"});
    assert Pick([ea, eb], [Paired, Paired], Paired) == [ea, eb];
    assert Tag([ea, eb], Paired) == [Entry(ea, Paired), Entry(eb, Paired)];
  }

  // ---------------------------------------------------------------------
  // combine_files and handle_file_list
  // ---------------------------------------------------------------------

  const MergedPrefix: string := "No_merged_"

  /**
   * The file `combine_files(eng_file, esp_file)` writes: `No_merged_<name>`
   * in the directory three levels above `eng_file`.
   */
  function MergedPath(engFile: Path): (out: Path)
    ensures Name(out) == MergedPrefix + Name(engFile)
    ensures Parent(out) == Parent(Parent(Parent(engFile)))
  {
    assert (MergedPrefix + Name(engFile))[0] == 'N';
    Join(Parent(Parent(Parent(engFile))), MergedPrefix + Name(engFile))
  }

  /**
   * For an English file `<export_dir>/English/<name>` the merged file is
   * `No_merged_<name>` in `export_dir.parent`.
   */
  lemma MergedPathLayout(exportDir: Path, name: string)
    requires name != "" && name != "."
    ensures MergedPath(Join(Join(exportDir, "English"), name)) == Join(Parent(exportDir), MergedPrefix + name)
    ensures Name(Join(Parent(exportDir), MergedPrefix + name)) == MergedPrefix + name
    ensures Parent(Join(Parent(exportDir), MergedPrefix + name)) == Parent(exportDir)
  {
    var x := Join(exportDir, "English");
    assert Parent(Join(x, name)) == x;
    assert Name(Join(x, name)) == name;
    assert MergedPrefix + name != "" && MergedPrefix + name != ".";
  }

  /** What `handle_file_list` does with one key: combine a pair, copy the rest. */
  datatype Action =
    | Combine(engFile: Path, espFile: Path, output: Path)
    | Copy(src: Path, destDir: Path)

  /** The one action for an entry labelled 1, 2 or 3. */
  function ActionFor(e: Entry, exportDir: Path): Action
  {
    if e.kind == Paired then Combine(e.file, Join(Join(exportDir, "Spanish"), Name(e.file)), MergedPath(e.file))
    else Copy(e.file, Parent(exportDir))
  }

  /**
   * The actions for one entry: label 1 combines the file with the same-named
   * file of `export_dir/Spanish` into `No_merged_<name>` three levels up,
   * labels 2 and 3 copy the file into `export_dir.parent`, and any other
   * label does nothing.
   */
  function Dispatch(e: Entry, exportDir: Path): (acts: seq<Action>)
    ensures e.kind == Paired ==>
              |acts| == 1 && acts[0].Combine? && acts[0].engFile == e.file &&
              acts[0].espFile == Join(Join(exportDir, "Spanish"), Name(e.file)) &&
              acts[0].output == MergedPath(e.file) &&
              Name(acts[0].output) == MergedPrefix + Name(e.file) &&
              Parent(acts[0].output) == Parent(Parent(Parent(e.file)))
    ensures e.kind in {EnglishOnly, SpanishOnly} ==> acts == [Copy(e.file, Parent(exportDir))]
    ensures e.kind !in {Paired, EnglishOnly, SpanishOnly} ==> acts == []
  {
    if e.kind in {Paired, EnglishOnly, SpanishOnly} then [ActionFor(e, exportDir)] else []
  }

  /** The actions for the whole dictionary, in insertion order: at most one per key. */
  function PlannedActions(comb: seq<Entry>, exportDir: Path): (acts: seq<Action>)
    ensures |acts| <= |comb|
  {
    if comb == [] then []
    else PlannedActions(comb[..|comb| - 1], exportDir) + Dispatch(comb[|comb| - 1], exportDir)
  }

  /**
   * `handle_file_list(comb_file_list, export_dir)`: the calls to
   * `combine_files` and `copy`, in the order they are made.
   */
  method HandleFileList(comb: seq<Entry>, exportDir: Path) returns (actions: seq<Action>)
    ensures actions == PlannedActions(comb, exportDir)
  {
    actions := [];
    var t := 0;
    while t < |comb|
      invariant 0 <= t <= |comb|
      invariant actions == PlannedActions(comb[..t], exportDir)
    {
      var f := comb[t];
      if f.kind == Paired {
        var espFile := Join(Join(exportDir, "Spanish"), Name(f.file));
        actions := actions + [Combine(f.file, espFile, MergedPath(f.file))];
      } else if f.kind == EnglishOnly {
        actions := actions + [Copy(f.file, Parent(exportDir))];
      } else if f.kind == SpanishOnly {
        actions := actions + [Copy(f.file, Parent(exportDir))];
      }
      PlannedActionsSnoc(comb, t, exportDir);
      t := t + 1;
    }
    assert comb[..|comb|] == comb;
  }

  lemma PlannedActionsSnoc(comb: seq<Entry>, t: nat, exportDir: Path)
    requires t < |comb|
    ensures PlannedActions(comb[..t + 1], exportDir) == PlannedActions(comb[..t], exportDir) + Dispatch(comb[t], exportDir)
  {
    assert comb[..t + 1][..t] == comb[..t];
  }

  /**
   * With labels 1 to 3 every key gives exactly one action, in key order:
   * a pair is combined with the same-named file of `export_dir/Spanish`,
   * anything else is copied into `export_dir.parent`.
   */
  lemma {:induction false} PlannedActionsShape(comb: seq<Entry>, exportDir: Path)
    requires forall q :: 0 <= q < |comb| ==> comb[q].kind in {Paired, EnglishOnly, SpanishOnly}
    ensures |PlannedActions(comb, exportDir)| == |comb|
    ensures forall q :: 0 <= q < |comb| ==> PlannedActions(comb, exportDir)[q] == ActionFor(comb[q], exportDir)
    decreases |comb|
  {
    if comb != [] {
      var n := |comb|;
      var init := comb[..n - 1];
      PlannedActionsShape(init, exportDir);
      var front := PlannedActions(init, exportDir);
      var all := front + [ActionFor(comb[n - 1], exportDir)];
      assert PlannedActions(comb, exportDir) == all;
      forall q | 0 <= q < n ensures all[q] == ActionFor(comb[q], exportDir) {
        if q < n - 1 {
          assert init[q] == comb[q];
          assert all[q] == front[q];
        }
      }
    }
  }

  /**
   * The listings `main` passes in hold the files `export_dir/English/<name>`
   * and `export_dir/Spanish/<name>`.
   */
  ghost predicate Listed(files: seq<Path>, dir: Path)
  {
    forall x :: x in files ==> Name(x) != "" && Name(x) != "." && x == Join(dir, Name(x))
  }

  /**
   * The whole run on two listings: each pair is combined with its real
   * Spanish partner into `No_merged_<name>` in `export_dir.parent`, and each
   * unpaired file is copied into that same directory.
   */
  lemma DispatchLayout(exportDir: Path, eng: seq<Path>, esp: seq<Path>)
    requires Listed(eng, Join(exportDir, "English")) && Listed(esp, Join(exportDir, "Spanish"))
    ensures forall a :: a in PlannedActions(Classified(eng, esp), exportDir) && a.Combine? ==>
              a.engFile in eng && a.espFile in esp && Name(a.espFile) == Name(a.engFile) &&
              a.output == Join(Parent(exportDir), MergedPrefix + Name(a.engFile))
    ensures forall a :: a in PlannedActions(Classified(eng, esp), exportDir) && a.Copy? ==>
              a.destDir == Parent(exportDir) && (a.src in eng || a.src in esp)
  {
    ClassifiedShape(eng, esp);
    DictionaryLayout(exportDir, eng, esp, Classified(eng, esp));
  }

  /** The same for any dictionary whose keys come from the listings as `classify_files` makes them. */
  lemma DictionaryLayout(exportDir: Path, eng: seq<Path>, esp: seq<Path>, c: seq<Entry>)
    requires Listed(eng, Join(exportDir, "English")) && Listed(esp, Join(exportDir, "Spanish"))
    requires forall q :: 0 <= q < |c| ==> c[q].kind in {Paired, EnglishOnly, SpanishOnly}
    requires forall q :: 0 <= q < |c| && c[q].kind == Paired ==> c[q].file in eng && Name(c[q].file) in NamesOf(esp)
    requires forall q :: 0 <= q < |c| && c[q].kind != Paired ==> c[q].file in eng + esp
    ensures forall a :: a in PlannedActions(c, exportDir) && a.Combine? ==>
              a.engFile in eng && a.espFile in esp && Name(a.espFile) == Name(a.engFile) &&
              a.output == Join(Parent(exportDir), MergedPrefix + Name(a.engFile))
    ensures forall a :: a in PlannedActions(c, exportDir) && a.Copy? ==>
              a.destDir == Parent(exportDir) && (a.src in eng || a.src in esp)
  {
    var acts := PlannedActions(c, exportDir);
    PlannedActionsShape(c, exportDir);
    forall a | a in acts
      ensures a.Combine? ==>
                a.engFile in eng && a.espFile in esp && Name(a.espFile) == Name(a.engFile) &&
                a.output == Join(Parent(exportDir), MergedPrefix + Name(a.engFile))
      ensures a.Copy? ==> a.destDir == Parent(exportDir) && (a.src in eng || a.src in esp)
    {
      var q :| 0 <= q < |acts| && acts[q] == a;
      ActionLayout(exportDir, eng, esp, c[q]);
    }
  }

  /**
   * The labels of `Classified`: 1 to 3; labels 1 and 2 are English files, a
   * label 1 file has a same-named Spanish file, labels 3 are Spanish files.
   */
  lemma ClassifiedShape(eng: seq<Path>, esp: seq<Path>)
    ensures forall q :: 0 <= q < |Classified(eng, esp)| ==>
              Classified(eng, esp)[q].kind in {Paired, EnglishOnly, SpanishOnly}
    ensures forall q :: 0 <= q < |Classified(eng, esp)| && Classified(eng, esp)[q].kind == Paired ==>
              Classified(eng, esp)[q].file in eng && Name(Classified(eng, esp)[q].file) in NamesOf(esp)
    ensures forall q :: 0 <= q < |Classified(eng, esp)| && Classified(eng, esp)[q].kind != Paired ==>
              Classified(eng, esp)[q].file in eng + esp
    ensures forall q :: 0 <= q < |Classified(eng, esp)| && Classified(eng, esp)[q].kind == EnglishOnly ==>
              Classified(eng, esp)[q].file in eng
    ensures forall q :: 0 <= q < |Classified(eng, esp)| && Classified(eng, esp)[q].kind == SpanishOnly ==>
              Classified(eng, esp)[q].file in esp
  {
    MatchedNames(eng, esp);
    TagThree(Matched(eng, esp), Unmatched(eng, esp), SpanishLeft(eng, esp), eng, esp);
  }

  lemma ActionLayout(exportDir: Path, eng: seq<Path>, esp: seq<Path>, e: Entry)
    requires Listed(eng, Join(exportDir, "English")) && Listed(esp, Join(exportDir, "Spanish"))
    requires e.kind == Paired ==> e.file in eng && Name(e.file) in NamesOf(esp)
    requires e.kind != Paired ==> e.file in eng + esp
    ensures var a := ActionFor(e, exportDir);
            (a.Combine? ==>
               a.engFile in eng && a.espFile in esp && Name(a.espFile) == Name(a.engFile) &&
               a.output == Join(Parent(exportDir), MergedPrefix + Name(a.engFile))) &&
            (a.Copy? ==> a.destDir == Parent(exportDir) && (a.src in eng || a.src in esp))
  {
    if e.kind == Paired {
      var f := e.file;
      var y :| y in esp && Name(y) == Name(f);
      assert y == Join(Join(exportDir, "Spanish"), Name(f));
      assert f == Join(Join(exportDir, "English"), Name(f));
      MergedPathLayout(exportDir, Name(f));
    }
  }

  /** The dispatch of the lookup pairing lands in the same places. */
  lemma LookupDispatchLayout(exportDir: Path, eng: seq<Path>, esp: seq<Path>)
    requires Listed(eng, Join(exportDir, "English")) && Listed(esp, Join(exportDir, "Spanish"))
    ensures forall a :: a in PlannedActions(LookupClassified(eng, esp), exportDir) && a.Combine? ==>
              a.engFile in eng && a.espFile in esp && Name(a.espFile) == Name(a.engFile) &&
              a.output == Join(Parent(exportDir), MergedPrefix + Name(a.engFile))
    ensures forall a :: a in PlannedActions(LookupClassified(eng, esp), exportDir) && a.Copy? ==>
              a.destDir == Parent(exportDir) && (a.src in eng || a.src in esp)
  {
    LookupShape(eng, esp);
    DictionaryLayout(exportDir, eng, esp, LookupClassified(eng, esp));
  }

  /** The labels of `LookupClassified` mean what those of `Classified` mean. */
  lemma LookupShape(eng: seq<Path>, esp: seq<Path>)
    ensures forall q :: 0 <= q < |LookupClassified(eng, esp)| ==>
              LookupClassified(eng, esp)[q].kind in {Paired, EnglishOnly, SpanishOnly}
    ensures forall q :: 0 <= q < |LookupClassified(eng, esp)| && LookupClassified(eng, esp)[q].kind == Paired ==>
              LookupClassified(eng, esp)[q].file in eng && Name(LookupClassified(eng, esp)[q].file) in NamesOf(esp)
    ensures forall q :: 0 <= q < |LookupClassified(eng, esp)| && LookupClassified(eng, esp)[q].kind != Paired ==>
              LookupClassified(eng, esp)[q].file in eng + esp
    ensures forall q :: 0 <= q < |LookupClassified(eng, esp)| && LookupClassified(eng, esp)[q].kind == EnglishOnly ==>
              LookupClassified(eng, esp)[q].file in eng
    ensures forall q :: 0 <= q < |LookupClassified(eng, esp)| && LookupClassified(eng, esp)[q].kind == SpanishOnly ==>
              LookupClassified(eng, esp)[q].file in esp
  {
    var labels := LookupLabels(eng, esp);
    var m := Pick(eng, labels, Paired);
    PickMembers(eng, labels, Paired);
    TagThree(m, Pick(eng, labels, EnglishOnly), Without(esp, NamesOf(m)), eng, esp);
  }
}
