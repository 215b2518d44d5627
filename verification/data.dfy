/**
 * `Olist.get_data`: which directory entries become tables, the key each one
 * is stored under, and the dictionary of tables built from them. The
 * directory listing is an input; reading a file is not modelled, so a table
 * is represented by the name of the file it is read from.
 */
module Data {
  import opened TableOps

  const CsvSuffix: string := ".csv"
  const OlistPrefix: string := "olist_"
  const DatasetSuffix: string := "_dataset.csv"

  predicate EndsWith(s: string, suffix: string) {
    |suffix| <= |s| && s[|s| - |suffix|..] == suffix
  }

  function IsCsv(name: string): bool { EndsWith(name, CsvSuffix) }

  /** `[f for f in os.listdir(csv_path) if f.endswith('.csv')]`. */
  function CsvFiles(listing: seq<string>): (files: seq<string>)
    ensures |files| <= |listing|
    ensures forall f :: f in files <==> f in listing && EndsWith(f, CsvSuffix)
  {
    Filter(listing, IsCsv)
  }

  /** Each `.csv` entry is kept as often as it is listed; no other entry is. */
  lemma CsvFilesCount(listing: seq<string>)
    ensures forall f :: multiset(CsvFiles(listing))[f] == if IsCsv(f) then multiset(listing)[f] else 0
  {
    FilterCount(listing, IsCsv);
  }

  /** The filter keeps directory order: the `.csv` files of a concatenation of
      listings are those of each part, in order. */
  lemma CsvFilesAppend(a: seq<string>, b: seq<string>)
    ensures CsvFiles(a + b) == CsvFiles(a) + CsvFiles(b)
  {
    FilterAppend(a, b, IsCsv);
  }

  /** A single entry is kept exactly when it ends in `.csv`. */
  lemma CsvFilesSingle(f: string)
    ensures CsvFiles([f]) == if IsCsv(f) then [f] else []
  {
    assert [f][1..] == [];
  }

  /** `pat` occurs in `s` starting at index `i`. */
  ghost predicate OccursAt(s: string, pat: string, i: int) {
    0 <= i <= |s| - |pat| && s[i..i + |pat|] == pat
  }

  /** `pat` occurs somewhere in `s`. */
  ghost predicate Occurs(s: string, pat: string) {
    exists i :: OccursAt(s, pat, i)
  }

  /** `s.replace(pat, '')`: every non-overlapping occurrence of `pat`, scanning
      left to right, is removed. */
  function RemoveAll(s: string, pat: string): (r: string)
    requires |pat| > 0
    ensures |r| <= |s|
    decreases |s|
  {
    if |s| < |pat| then s
    else if s[..|pat|] == pat then RemoveAll(s[|pat|..], pat)
    else [s[0]] + RemoveAll(s[1..], pat)
  }

  /** The rewrite changes `s` exactly when `pat` occurs in it. */
  lemma {:induction false} RemoveAllUnchanged(s: string, pat: string)
    requires |pat| > 0
    ensures RemoveAll(s, pat) == s <==> !Occurs(s, pat)
    decreases |s|
  {
    if |s| < |pat| {
    } else if s[..|pat|] == pat {
      assert OccursAt(s, pat, 0);
    } else {
      RemoveAllUnchanged(s[1..], pat);
      OccursTail(s, pat);
      assert [s[0]] + s[1..] == s;
    }
  }

  /** When `s` does not start with `pat`, it contains `pat` exactly when its
      tail does. */
  lemma OccursTail(s: string, pat: string)
    requires 0 < |pat| <= |s|
    requires s[..|pat|] != pat
    ensures Occurs(s, pat) <==> Occurs(s[1..], pat)
  {
    if Occurs(s, pat) {
      var i :| OccursAt(s, pat, i);
      assert i != 0;
      assert s[1..][i - 1..i - 1 + |pat|] == s[i..i + |pat|];
      assert OccursAt(s[1..], pat, i - 1);
    }
    if Occurs(s[1..], pat) {
      var i :| OccursAt(s[1..], pat, i);
      assert s[i + 1..i + 1 + |pat|] == s[1..][i..i + |pat|];
      assert OccursAt(s, pat, i + 1);
    }
  }

  /** The dictionary key of a file name. */
  function Key(name: string): (k: string)
    ensures |k| <= |name|
  {
    RemoveAll(RemoveAll(RemoveAll(name, OlistPrefix), DatasetSuffix), CsvSuffix)
  }

  /** The keys of `files`, positionally. */
  function KeyNames(files: seq<string>): (ks: seq<string>)
    ensures |ks| == |files|
    ensures forall i :: 0 <= i < |files| ==> ks[i] == Key(files[i]) && |ks[i]| <= |files[i]|
  {
    seq(|files|, i requires 0 <= i < |files| => Key(files[i]))
  }

  /** `f` is the last of the first `n` files whose key (under `key`) is `k`. */
  ghost predicate LastWithKey(files: seq<string>, n: int, key: string -> string, k: string, f: string)
    requires 0 <= n <= |files|
  {
    exists j :: 0 <= j < n && files[j] == f && key(f) == k
      && forall j' :: j < j' < n ==> key(files[j']) != k
  }

  /** `f` is the last `.csv` file of `listing` whose key is `k`. */
  ghost predicate LastCsvWithKey(listing: seq<string>, k: string, f: string) {
    var files := CsvFiles(listing);
    exists j :: 0 <= j < |files| && files[j] == f && Key(f) == k
      && forall j' :: j < j' < |files| ==> Key(files[j']) != k
  }

  /** `f` is, by position in the directory listing itself, the last `.csv`
      entry whose key is `k`. */
  ghost predicate LastListedWithKey(listing: seq<string>, k: string, f: string) {
    exists i :: 0 <= i < |listing| && listing[i] == f && IsCsv(f) && Key(f) == k
      && forall i' :: i < i' < |listing| && IsCsv(listing[i']) ==> Key(listing[i']) != k
  }

  /** When the last entry is a `.csv` file with key `k`, it is the winner. */
  lemma LastCsvIsLast(init: seq<string>, last: string, k: string, f: string)
    requires LastCsvWithKey(init + [last], k, f)
    requires IsCsv(last) && Key(last) == k
    ensures f == last
  {
    CsvFilesAppend(init, [last]);
    CsvFilesSingle(last);
    var files := CsvFiles(init + [last]);
    assert files[|files| - 1] == last;
  }

  /** Otherwise the winner is already the winner among the earlier entries. */
  lemma LastCsvDropLast(init: seq<string>, last: string, k: string, f: string)
    requires LastCsvWithKey(init + [last], k, f)
    requires !(IsCsv(last) && Key(last) == k)
    ensures LastCsvWithKey(init, k, f)
  {
    CsvFilesAppend(init, [last]);
    CsvFilesSingle(last);
    var files := CsvFiles(init + [last]);
    var pre := CsvFiles(init);
    var j :| 0 <= j < |files| && files[j] == f && Key(f) == k
      && forall j' :: j < j' < |files| ==> Key(files[j']) != k;
    assert j < |pre| && pre[j] == f;
    forall j' | j < j' < |pre| ensures Key(pre[j']) != k {
      assert files[j'] == pre[j'];
    }
  }

  /** The winner among the filtered files is the winner in the listing: the
      filter drops only non-`.csv` entries and keeps the rest in order. */
  lemma {:induction false} LastCsvInListing(listing: seq<string>, k: string, f: string)
    requires LastCsvWithKey(listing, k, f)
    ensures LastListedWithKey(listing, k, f)
    decreases |listing|
  {
    var n := |listing|;
    assert n > 0;
    var init := listing[..n - 1];
    var last := listing[n - 1];
    assert listing == init + [last];
    if IsCsv(last) && Key(last) == k {
      LastCsvIsLast(init, last, k, f);
      assert listing[n - 1] == f && Key(f) == k;
    } else {
      LastCsvDropLast(init, last, k, f);
      LastCsvInListing(init, k, f);
      var i :| 0 <= i < |init| && init[i] == f && IsCsv(f) && Key(f) == k
        && forall i' :: i < i' < |init| && IsCsv(init[i']) ==> Key(init[i']) != k;
      assert listing[i] == f;
      forall i' | i < i' < n && IsCsv(listing[i']) ensures Key(listing[i']) != k {
        if i' < n - 1 { assert listing[i'] == init[i']; }
      }
    }
  }

  /** One step of the loop: storing file `i` under its key keeps "the last
      file with this key" true for every key. */
  lemma LastWithKeyStep(files: seq<string>, i: int, key: string -> string,
                         data: map<string, string>, data': map<string, string>)
    requires 0 <= i < |files|
    requires forall k :: k in data ==> LastWithKey(files, i, key, k, data[k])
    requires data' == data[key(files[i]) := files[i]]
    ensures forall k :: k in data' ==> LastWithKey(files, i + 1, key, k, data'[k])
  {
    forall k | k in data'
      ensures LastWithKey(files, i + 1, key, k, data'[k])
    {
      if k != key(files[i]) {
        var j :| 0 <= j < i && files[j] == data[k] && key(data[k]) == k
          && forall j' :: j < j' < i ==> key(files[j']) != k;
        assert forall j' :: j < j' < i + 1 ==> key(files[j']) != k;
      } else {
        assert files[i] == data'[k];
      }
    }
  }

  /** The dictionary build of `get_data`: for each (key, file) pair in order,
      `data[key] = table(file)`, so a later file with the same key wins. */
  method GetData(listing: seq<string>) returns (data: map<string, string>)
    ensures data.Keys == set f | f in CsvFiles(listing) :: Key(f)
    ensures forall k :: k in data ==> LastCsvWithKey(listing, k, data[k])
    ensures forall k :: k in data ==> data[k] in listing && EndsWith(data[k], CsvSuffix)
    ensures forall k :: k in data ==> LastListedWithKey(listing, k, data[k])
  {
    var fileNames := CsvFiles(listing);
    var keyNames := KeyNames(fileNames);
    data := map[];
    var i := 0;
    while i < |fileNames|
      invariant 0 <= i <= |fileNames|
      invariant data.Keys == set j | 0 <= j < i :: keyNames[j]
      invariant forall k :: k in data ==> LastWithKey(fileNames, i, Key, k, data[k])
    {
      LastWithKeyStep(fileNames, i, Key, data, data[keyNames[i] := fileNames[i]]);
      data := data[keyNames[i] := fileNames[i]];
      i := i + 1;
    }
    KeySetComplete(fileNames, keyNames);
    LastFilesListed(listing, data);
    forall k | k in data ensures LastListedWithKey(listing, k, data[k]) {
      LastCsvInListing(listing, k, data[k]);
    }
  }

  lemma KeySetComplete(files: seq<string>, keys: seq<string>)
    requires keys == KeyNames(files)
    ensures (set j | 0 <= j < |files| :: keys[j]) == set f | f in files :: Key(f)
  {
    forall f | f in files ensures Key(f) in set j | 0 <= j < |files| :: keys[j] {
      var j :| 0 <= j < |files| && files[j] == f;
      assert keys[j] == Key(f);
    }
  }

  lemma LastFilesListed(listing: seq<string>, data: map<string, string>)
    requires forall k :: k in data ==> LastCsvWithKey(listing, k, data[k])
    ensures forall k :: k in data ==> data[k] in listing && EndsWith(data[k], CsvSuffix)
  {
    var files := CsvFiles(listing);
    forall k | k in data ensures data[k] in listing && EndsWith(data[k], CsvSuffix) {
      var j :| 0 <= j < |files| && files[j] == data[k] && Key(data[k]) == k
        && forall j' :: j < j' < |files| ==> Key(files[j']) != k;
      assert files[j] in files;
    }
  }

  /** Removing a pattern from a string that starts with it. */
  lemma RemoveAllLeading(pat: string, t: string)
    requires |pat| > 0
    ensures RemoveAll(pat + t, pat) == RemoveAll(t, pat)
  {
    assert (pat + t)[..|pat|] == pat;
    assert (pat + t)[|pat|..] == t;
  }

  /** A string lacking one of the pattern's characters cannot contain it. */
  lemma MissingCharNoOccur(s: string, pat: string, c: char)
    requires c in pat && c !in s
    ensures !Occurs(s, pat)
  {
  }

  /** Text before the first possible start of `pat` is kept unchanged. */
  lemma {:induction false} RemoveAllSkip(a: string, t: string, pat: string)
    requires |pat| > 0
    requires pat[0] !in a
    ensures RemoveAll(a + t, pat) == a + RemoveAll(t, pat)
  {
    if |a| == 0 {
      assert a + t == t;
    } else {
      var s := a + t;
      assert s[0] == a[0] && a[0] != pat[0];
      if |s| < |pat| {
        RemoveAllUnchanged(t, pat);
        assert !Occurs(t, pat);
      } else {
        assert s[..|pat|] != pat by { assert s[..|pat|][0] == a[0]; }
        assert s[1..] == a[1..] + t;
        RemoveAllKeepsHead(s, pat);
        RemoveAllSkip(a[1..], t, pat);
        assert [a[0]] + a[1..] == a;
      }
    }
  }

  /** ... and the occurrence that follows it is removed. */
  lemma RemoveAllAfter(a: string, pat: string, t: string)
    requires |pat| > 0
    requires pat[0] !in a
    ensures RemoveAll(a + pat + t, pat) == a + RemoveAll(t, pat)
  {
    var u := pat + t;
    assert a + pat + t == a + u;
    RemoveAllSkip(a, u, pat);
    RemoveAllLeading(pat, t);
  }

  /** Unfolding `RemoveAll` where `s` does not start with `pat`. */
  lemma RemoveAllKeepsHead(s: string, pat: string)
    requires 0 < |pat| <= |s|
    requires s[..|pat|] != pat
    ensures RemoveAll(s, pat) == [s[0]] + RemoveAll(s[1..], pat)
  {
  }

  /** First rewrite: a leading `olist_` is removed, and nothing else is when
      the remainder lacks `l` or `o`. */
  lemma DropOlistPrefix(rest: string)
    requires 'l' !in rest || 'o' !in rest
    ensures RemoveAll(OlistPrefix + rest, OlistPrefix) == rest
  {
    RemoveAllLeading(OlistPrefix, rest);
    if 'l' !in rest {
      MissingCharNoOccur(rest, OlistPrefix, 'l');
    } else {
      MissingCharNoOccur(rest, OlistPrefix, 'o');
    }
    RemoveAllUnchanged(rest, OlistPrefix);
  }

  /** Second rewrite: a trailing `_dataset.csv` after a name without `_` is
      removed. */
  lemma DropDatasetSuffix(name: string)
    requires '_' !in name
    ensures RemoveAll(name + DatasetSuffix, DatasetSuffix) == name
  {
    RemoveAllTrailing(name, DatasetSuffix);
  }

  /** Third rewrite: a name without `.` has no `.csv` to remove. */
  lemma KeepsDotFree(name: string)
    requires '.' !in name
    ensures RemoveAll(name, CsvSuffix) == name
  {
    MissingCharNoOccur(name, CsvSuffix, '.');
    RemoveAllUnchanged(name, CsvSuffix);
  }

  /** The key of `olist_<name>_dataset.csv` is `<name>`, for a name that
      cannot start or contain any of the removed patterns: it lacks `_` and
      `.`, and lacks `l` or `o` so that the remainder cannot contain `olist_`. */
  lemma KeyOfOlistName(name: string)
    requires ('l' !in name || 'o' !in name) && '_' !in name && '.' !in name
    ensures Key(OlistPrefix + name + DatasetSuffix) == name
  {
    var rest := name + DatasetSuffix;
    assert OlistPrefix + name + DatasetSuffix == OlistPrefix + rest;
    DropOlistPrefix(rest);
    DropDatasetSuffix(name);
    KeepsDotFree(name);
  }

  /** `"_" + b + "_dataset.csv"` does not itself start with `_dataset.csv`
      when `b` is non-empty and has no `_` or `.`. */
  lemma UnderscoreNotSuffix(b: string)
    requires |b| > 0 && '_' !in b && '.' !in b
    ensures ("_" + b + DatasetSuffix)[..|DatasetSuffix|] != DatasetSuffix
  {
    var s := "_" + b + DatasetSuffix;
    if |b| >= 8 {
      assert s[8] == b[7];
      assert DatasetSuffix[8] == '.';
    } else {
      assert s[|b| + 1] == '_';
      assert forall i :: 1 <= i < |DatasetSuffix| ==> DatasetSuffix[i] != '_';
    }
  }

  /** A pattern at the very end of `b + pat` is removed, and nothing of `b`. */
  lemma RemoveAllTrailing(b: string, pat: string)
    requires |pat| > 0 && pat[0] !in b
    ensures RemoveAll(b + pat, pat) == b
  {
    RemoveAllSkip(b, pat, pat);
    assert pat[..|pat|] == pat && pat[|pat|..] == [];
  }

  /** A head character at which the pattern does not start is kept. */
  lemma RemoveAllHeadThen(c: char, b: string, pat: string)
    requires |pat| > 0 && pat[0] !in b
    requires ([c] + b + pat)[..|pat|] != pat
    ensures RemoveAll([c] + b + pat, pat) == [c] + b
  {
    var tail := [c] + b + pat;
    assert tail[0] == c && tail[1..] == b + pat;
    RemoveAllKeepsHead(tail, pat);
    RemoveAllTrailing(b, pat);
  }

  /** Removing `pat` from `a + [c] + b + pat` keeps `a + [c] + b` when the
      pattern can start neither inside `a` nor inside `b`, nor at `c`. */
  lemma RemoveAllAround(a: string, c: char, b: string, pat: string)
    requires |pat| > 0 && pat[0] !in a && pat[0] !in b
    requires ([c] + b + pat)[..|pat|] != pat
    ensures RemoveAll(a + [c] + b + pat, pat) == a + [c] + b
  {
    var tail := [c] + b + pat;
    calc {
      RemoveAll(a + [c] + b + pat, pat);
      { assert a + [c] + b + pat == a + tail; }
      RemoveAll(a + tail, pat);
      { RemoveAllSkip(a, tail, pat); }
      a + RemoveAll(tail, pat);
      { RemoveAllHeadThen(c, b, pat); }
      a + ([c] + b);
      a + [c] + b;
    }
  }

  /** The second rewrite keeps the inner underscore of `<a>_<b>`. */
  lemma DropDatasetSuffixPair(a: string, b: string)
    requires '_' !in a && '_' !in b && '.' !in b && |b| > 0
    ensures RemoveAll(a + "_" + b + DatasetSuffix, DatasetSuffix) == a + "_" + b
  {
    assert "_" == ['_'];
    UnderscoreNotSuffix(b);
    RemoveAllAround(a, '_', b, DatasetSuffix);
  }

  /** The key of `olist_<a>_<b>_dataset.csv` is `<a>_<b>`: the inner
      underscore survives the suffix rewrite. */
  lemma KeyOfOlistPair(a: string, b: string)
    requires 'l' !in a && '_' !in a && '.' !in a
    requires 'l' !in b && '_' !in b && '.' !in b && |b| > 0
    ensures Key(OlistPrefix + a + "_" + b + DatasetSuffix) == a + "_" + b
  {
    var rest := a + "_" + b + DatasetSuffix;
    assert OlistPrefix + a + "_" + b + DatasetSuffix == OlistPrefix + rest;
    DropOlistPrefix(rest);
    DropDatasetSuffixPair(a, b);
    KeepsDotFree(a + "_" + b);
  }

  /** The orders file is stored under `orders`. */
  lemma OrdersKey()
    ensures Key("olist_orders_dataset.csv") == "orders"
  {
    assert "olist_orders" == OlistPrefix + "orders";
    assert "olist_orders_dataset.csv" == "olist_orders" + DatasetSuffix;
    assert 'l' !in "orders" && '_' !in "orders" && '.' !in "orders";
    KeyOfOlistName("orders");
  }

  /** The sellers file is stored under `sellers`, although `sellers` contains
      an `l`. */
  lemma SellersKey()
    ensures Key("olist_sellers_dataset.csv") == "sellers"
  {
    assert "olist_sellers" == OlistPrefix + "sellers";
    assert "olist_sellers_dataset.csv" == "olist_sellers" + DatasetSuffix;
    assert 'o' !in "sellers" && '_' !in "sellers" && '.' !in "sellers";
    KeyOfOlistName("sellers");
  }

  /** The order-items file is stored under `order_items`. */
  lemma OrderItemsKey()
    ensures Key("olist_order_items_dataset.csv") == "order_items"
  {
    assert "olist_order" == OlistPrefix + "order";
    assert "olist_order_" == "olist_order" + "_";
    assert "olist_order_items" == "olist_order_" + "items";
    assert "olist_order_items_dataset.csv" == "olist_order_items" + DatasetSuffix;
    assert "order_" == "order" + "_";
    assert "order_items" == "order_" + "items";
    KeyOfOlistPair("order", "items");
  }

  /** The order-reviews file is stored under `order_reviews`. */
  lemma OrderReviewsKey()
    ensures Key("olist_order_reviews_dataset.csv") == "order_reviews"
  {
    assert "olist_order" == OlistPrefix + "order";
    assert "olist_order_" == "olist_order" + "_";
    assert "olist_order_reviews" == "olist_order_" + "reviews";
    assert "olist_order_reviews_dataset.csv" == "olist_order_reviews" + DatasetSuffix;
    assert "order_" == "order" + "_";
    assert "order_reviews" == "order_" + "reviews";
    KeyOfOlistPair("order", "reviews");
  }
}
