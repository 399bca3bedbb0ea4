/**
 * The order in which the reorder script reads several id files: by the integer
 * written between the first and second dot of the file name (for example the
 * `3` of `ids.3.jsonl.gz`), keeping command-line order between equal numbers.
 * A single id file is used as given.
 */
module IdFiles {
  import opened Wrappers
  import opened Text

  /** Why the sort key of a name cannot be computed: it has no dot (`IndexError`) or no integer there (`ValueError`). */
  datatype KeyError = NoSecondComponent(name: string) | NotAnInteger(name: string)

  /** An item (a file name) with its sort key. */
  datatype Keyed<T> = Keyed(key: int, item: T)

  /** `Path.name`: the last component of a path, the longest suffix without a `/`. */
  function FileName(path: string): (n: string)
    ensures |n| <= |path| && n == path[|path| - |n|..]
    ensures '/' !in n
    ensures |n| < |path| ==> path[|path| - |n| - 1] == '/'
  {
    if |path| == 0 || path[|path| - 1] == '/' then []
    else FileName(path[..|path| - 1]) + [path[|path| - 1]]
  }

  /** A name without a `/` is its own last component. */
  lemma FileNameOfName(n: string)
    requires '/' !in n
    ensures FileName(n) == n
  {
  }

  /** The last component of `dir/n` is `n`, whatever `dir` holds. */
  lemma FileNameInDirectory(dir: string, n: string)
    requires '/' !in n
    ensures FileName(dir + "/" + n) == n
  {
    var p := dir + "/" + n;
    assert p[|p| - |n|..] == n;
    assert p[|p| - |n| - 1] == '/';
  }

  /** `int(x.name.split(".")[1])`: the key is read from the last component of the path only. */
  function SortKey(path: string): Result<int, KeyError> {
    var name := FileName(path);
    var parts := Split(name, ".");
    if |parts| < 2 then Err(NoSecondComponent(name))
    else match ParseInt(parts[1])
      case None => Err(NotAnInteger(name))
      case Some(k) => Ok(k)
  }

  /**
   * The key of `prefix.<k>.rest`, for a prefix without a dot, is `k`: the number Python's
   * `str(k)` writes. With a directory in front the key is the same, dots in the directory
   * notwithstanding.
   */
  lemma SortKeyOfNumbered(dir: string, prefix: string, k: int, rest: string)
    requires !Contains(prefix, ".") && '/' !in prefix && '/' !in rest
    ensures SortKey(prefix + "." + ShowInt(k) + "." + rest) == Ok(k)
    ensures SortKey(dir + "/" + prefix + "." + ShowInt(k) + "." + rest) == Ok(k)
  {
    var n := prefix + "." + ShowInt(k) + "." + rest;
    ShowIntNoDot(k);
    assert '/' !in n by {
      ShowIntNoSlash(k);
    }
    FileNameOfName(n);
    assert dir + "/" + prefix + "." + ShowInt(k) + "." + rest == dir + "/" + n;
    FileNameInDirectory(dir, n);
    SecondPiece(prefix, ShowInt(k), rest);
    ParseShowInt(k);
  }

  /** Between the first and second dot of `prefix.w.rest` lies `w`, when neither holds a dot. */
  lemma SecondPiece(prefix: string, w: string, rest: string)
    requires !Contains(prefix, ".") && !Contains(w, ".")
    ensures var parts := Split(prefix + "." + w + "." + rest, ".");
      |parts| >= 2 && parts[1] == w
  {
    var t := w + "." + rest;
    SplitAtDot(w, rest);
    SplitAtDot(prefix, t);
    Regroup(prefix, ".", w, ".", rest);
  }

  /** Regrouping a concatenation of five pieces so that the last three come together. */
  lemma Regroup<T>(a: seq<T>, b: seq<T>, c: seq<T>, d: seq<T>, e: seq<T>)
    ensures a + b + c + d + e == a + b + (c + d + e)
  {
  }

  /** Splitting on a dot after a dot-free first piece: that piece, then the split of the rest. */
  lemma SplitAtDot(w: string, r: string)
    requires !Contains(w, ".")
    ensures Split(w + "." + r, ".") == [w] + Split(r, ".")
  {
    var s := w + "." + r;
    assert OccursAt(s, ".", |w|);
    forall j | 0 <= j < |w| ensures !OccursAt(s, ".", j) {
      assert s[j] == w[j];
      assert !OccursAt(w, ".", j);
    }
    FindFromFirst(s, ".", 0, |w|);
    assert s[..|w|] == w;
    assert s[|w| + 1..] == r;
  }

  /** A rendered integer holds no dot. */
  lemma ShowIntNoDot(k: int)
    ensures !Contains(ShowInt(k), ".")
  {
    var s := ShowInt(k);
    var d := Decimal(if k < 0 then -k else k);
    assert IsDigits(d);
    assert forall j :: 0 <= j < |s| ==> s[j] != '.' by {
      if k < 0 {
        assert s == "-" + d;
        assert forall j :: 1 <= j < |s| ==> s[j] == d[j - 1];
      } else {
        assert s == d;
      }
    }
    forall j | 0 <= j <= |s| ensures !OccursAt(s, ".", j) {
      if j < |s| {
        assert s[j] != '.';
      }
    }
  }

  /** A rendered integer holds no slash. */
  lemma ShowIntNoSlash(k: int)
    ensures '/' !in ShowInt(k)
  {
    var s := ShowInt(k);
    var d := Decimal(if k < 0 then -k else k);
    assert IsDigits(d);
    if k < 0 {
      assert s == "-" + d;
      assert forall j :: 1 <= j < |s| ==> s[j] == d[j - 1];
    }
  }

  /** The keys of all names, computed in order before any comparison; the first failure is raised. */
  function KeyAll<T>(key: T -> Result<int, KeyError>, xs: seq<T>): (r: Result<seq<Keyed<T>>, KeyError>)
    ensures r.Ok? ==> |r.value| == |xs| && forall i :: 0 <= i < |xs| ==>
      r.value[i].item == xs[i] && key(xs[i]) == Ok(r.value[i].key)
  {
    if |xs| == 0 then Ok([])
    else match key(xs[0])
      case Err(e) => Err(e)
      case Ok(k) =>
        match KeyAll(key, xs[1..])
        case Err(e) => Err(e)
        case Ok(ks) => Ok([Keyed(k, xs[0])] + ks)
  }

  /** Computing the keys fails exactly when some name has none, and then with the error of the first such name. */
  lemma {:induction false} KeyAllFails<T>(key: T -> Result<int, KeyError>, xs: seq<T>) returns (i: nat)
    requires KeyAll(key, xs).Err?
    ensures i < |xs| && key(xs[i]) == Err(KeyAll(key, xs).error)
    ensures forall j :: 0 <= j < i ==> key(xs[j]).Ok?
  {
    var rest := xs[1..];
    if key(xs[0]).Err? {
      i := 0;
    } else {
      var i' := KeyAllFails(key, rest);
      i := i' + 1;
      forall j | 1 <= j < i ensures key(xs[j]).Ok? {
        assert xs[j] == rest[j - 1];
      }
    }
  }

  /** Keys never decrease along the sequence. */
  predicate Sorted<T>(s: seq<Keyed<T>>) {
    forall i, j :: 0 <= i < j < |s| ==> s[i].key <= s[j].key
  }

  /** The entries carrying key `k`, in order. */
  function WithKey<T>(s: seq<Keyed<T>>, k: int): seq<Keyed<T>> {
    if |s| == 0 then [] else (if s[0].key == k then [s[0]] else []) + WithKey(s[1..], k)
  }

  /** Place `x` before the first entry whose key is not smaller than its own. */
  function InsertKeyed<T>(x: Keyed<T>, s: seq<Keyed<T>>): seq<Keyed<T>> {
    if |s| == 0 || x.key <= s[0].key then [x] + s else [s[0]] + InsertKeyed(x, s[1..])
  }

  /** `sorted(..., key=...)` as an insertion sort: each entry is placed ahead of the later entries with the same key. */
  function SortKeyed<T>(s: seq<Keyed<T>>): seq<Keyed<T>> {
    if |s| == 0 then [] else InsertKeyed(s[0], SortKeyed(s[1..]))
  }

  /** The items of the entries, in order. */
  function Items<T>(s: seq<Keyed<T>>): (ns: seq<T>)
    ensures |ns| == |s| && forall i :: 0 <= i < |s| ==> ns[i] == s[i].item
  {
    if |s| == 0 then [] else [s[0].item] + Items(s[1..])
  }

  /** Inserting into a sorted sequence keeps it sorted. */
  lemma {:induction false} InsertSorted<T>(x: Keyed<T>, s: seq<Keyed<T>>)
    requires Sorted(s)
    ensures Sorted(InsertKeyed(x, s))
    ensures |s| > 0 ==> InsertKeyed(x, s)[0] == if x.key <= s[0].key then x else s[0]
  {
    if |s| > 0 && x.key > s[0].key {
      var rest := InsertKeyed(x, s[1..]);
      InsertSorted(x, s[1..]);
      var r := [s[0]] + rest;
      forall i, j | 0 <= i < j < |r| ensures r[i].key <= r[j].key {
        if i > 0 {
          assert r[i] == rest[i - 1] && r[j] == rest[j - 1];
        } else if |s| > 1 {
          assert rest[0].key >= s[0].key;
          assert r[j] == rest[j - 1];
        }
      }
    }
  }

  /** Inserting adds exactly `x`. */
  lemma {:induction false} InsertPermutes<T>(x: Keyed<T>, s: seq<Keyed<T>>)
    ensures multiset(InsertKeyed(x, s)) == multiset(s) + multiset{x}
  {
    if |s| > 0 && x.key > s[0].key {
      InsertPermutes(x, s[1..]);
      assert s == [s[0]] + s[1..];
    }
  }

  /** Inserting adds exactly the item of `x` to the items. */
  lemma {:induction false} InsertItems<T>(x: Keyed<T>, s: seq<Keyed<T>>)
    ensures multiset(Items(InsertKeyed(x, s))) == multiset(Items(s)) + multiset{x.item}
  {
    if |s| > 0 && x.key > s[0].key {
      InsertItems(x, s[1..]);
      assert Items(s) == [s[0].item] + Items(s[1..]);
      assert Items(InsertKeyed(x, s)) == [s[0].item] + Items(InsertKeyed(x, s[1..]));
    } else {
      assert Items([x] + s) == [x.item] + Items(s);
    }
  }

  /** Among entries with one key, `x` goes in front, and the others keep their order. */
  lemma {:induction false} InsertWithKey<T>(x: Keyed<T>, s: seq<Keyed<T>>, k: int)
    ensures WithKey(InsertKeyed(x, s), k) == if x.key == k then [x] + WithKey(s, k) else WithKey(s, k)
  {
    if |s| > 0 && x.key > s[0].key {
      InsertWithKey(x, s[1..], k);
      var r := InsertKeyed(x, s);
      assert r[1..] == InsertKeyed(x, s[1..]);
    } else {
      assert ([x] + s)[1..] == s;
    }
  }

  /** The sort orders by key. */
  lemma {:induction false} SortSorted<T>(s: seq<Keyed<T>>)
    ensures Sorted(SortKeyed(s))
  {
    if |s| > 0 {
      SortSorted(s[1..]);
      InsertSorted(s[0], SortKeyed(s[1..]));
    }
  }

  /** The sort rearranges the entries, dropping and adding none. */
  lemma {:induction false} SortPermutes<T>(s: seq<Keyed<T>>)
    ensures multiset(SortKeyed(s)) == multiset(s)
  {
    if |s| > 0 {
      SortPermutes(s[1..]);
      InsertPermutes(s[0], SortKeyed(s[1..]));
      assert s == [s[0]] + s[1..];
    }
  }

  /** The sort rearranges the items the same way. */
  lemma {:induction false} SortItems<T>(s: seq<Keyed<T>>)
    ensures multiset(Items(SortKeyed(s))) == multiset(Items(s))
  {
    if |s| > 0 {
      SortItems(s[1..]);
      InsertItems(s[0], SortKeyed(s[1..]));
      assert Items(s) == [s[0].item] + Items(s[1..]);
    }
  }

  /** The sort is stable: the entries with any one key come out in the order they went in. */
  lemma {:induction false} SortStable<T>(s: seq<Keyed<T>>, k: int)
    ensures WithKey(SortKeyed(s), k) == WithKey(s, k)
  {
    if |s| > 0 {
      SortStable(s[1..], k);
      InsertWithKey(s[0], SortKeyed(s[1..]), k);
    }
  }

  /**
   * Items in the order of their keys: as given when there are fewer than two, otherwise
   * sorted stably by key, failing on the first item without one.
   */
  function OrderByKey<T>(key: T -> Result<int, KeyError>, xs: seq<T>): (r: Result<seq<T>, KeyError>)
    ensures |xs| <= 1 ==> r == Ok(xs)
    ensures |xs| > 1 ==> (r.Err? <==> exists i :: 0 <= i < |xs| && key(xs[i]).Err?)
    ensures r.Ok? ==> multiset(r.value) == multiset(xs)
  {
    if |xs| <= 1 then Ok(xs)
    else match KeyAll(key, xs)
      case Err(e) =>
        assert exists i :: 0 <= i < |xs| && key(xs[i]).Err? by {
          var i := KeyAllFails(key, xs);
        }
        Err(e)
      case Ok(ks) =>
        SortItems(ks);
        assert Items(ks) == xs;
        Ok(Items(SortKeyed(ks)))
  }

  /**
   * The id files in reading order: as given when there are fewer than two, otherwise
   * sorted stably by the key of their file names, raising on the first name without one.
   */
  function OrderIdFiles(names: seq<string>): (r: Result<seq<string>, KeyError>)
    ensures |names| <= 1 ==> r == Ok(names)
    ensures |names| > 1 ==> (r.Err? <==> exists i :: 0 <= i < |names| && SortKey(names[i]).Err?)
    ensures r.Ok? ==> multiset(r.value) == multiset(names)
  {
    OrderByKey(SortKey, names)
  }

  /** With several id files, the reading order is the items of the sorted keyed names, and it is ordered by key. */
  lemma OrderIdFilesSorted(names: seq<string>)
    requires |names| > 1 && OrderIdFiles(names).Ok?
    ensures var sorted := SortKeyed(KeyAll(SortKey, names).value);
      && OrderIdFiles(names).value == Items(sorted)
      && forall i, j :: 0 <= i < j < |sorted| ==> sorted[i].key <= sorted[j].key
  {
    SortSorted(KeyAll(SortKey, names).value);
  }

  /** Each file in the reading order carries its own key. */
  lemma OrderIdFilesKeys(names: seq<string>)
    requires KeyAll(SortKey, names).Ok?
    ensures var sorted := SortKeyed(KeyAll(SortKey, names).value);
      forall i :: 0 <= i < |sorted| ==> SortKey(sorted[i].item) == Ok(sorted[i].key)
  {
    var ks := KeyAll(SortKey, names).value;
    SortFrom(ks);
    forall i | 0 <= i < |SortKeyed(ks)| ensures SortKey(SortKeyed(ks)[i].item) == Ok(SortKeyed(ks)[i].key) {
      var j :| 0 <= j < |ks| && ks[j] == SortKeyed(ks)[i];
      assert SortKey(names[j]) == Ok(ks[j].key);
    }
  }

  /** Every entry the sort returns was one of its input entries. */
  lemma SortFrom<T>(s: seq<Keyed<T>>)
    ensures forall i :: 0 <= i < |SortKeyed(s)| ==> exists j :: 0 <= j < |s| && s[j] == SortKeyed(s)[i]
  {
    SortPermutes(s);
    forall i | 0 <= i < |SortKeyed(s)| ensures exists j :: 0 <= j < |s| && s[j] == SortKeyed(s)[i] {
      assert SortKeyed(s)[i] in multiset(s);
    }
  }

  /** Files with equal keys are read in command-line order. */
  lemma OrderIdFilesStable(names: seq<string>, k: int)
    requires |names| > 1 && OrderIdFiles(names).Ok?
    ensures var ks := KeyAll(SortKey, names).value;
      WithKey(SortKeyed(ks), k) == WithKey(ks, k)
  {
    SortStable(KeyAll(SortKey, names).value, k);
  }
}
