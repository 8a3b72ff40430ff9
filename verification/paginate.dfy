/** The `paginate` schema plugin: the sort string built from `sortBy`, the
    effective `limit` and `page`, the number of documents skipped, the page
    count, the populate specifications built from `populate`, and the page
    of results. The query itself runs in the database; here the filtered,
    sorted documents are an input. */
module Paginate {
  import opened Outcomes
  import opened Strings

  /** The query options, all strings as they arrive in a query string. */
  datatype Options = Options(sortBy: Option<string>, populate: Option<string>,
                             limit: Option<string>, page: Option<string>)

  // -----------------------------------------------------------------------
  // Sorting

  const DefaultSort := "createdAt"

  /** One `key:order` option: `-key` when the order is exactly `desc`, else `key`.
      An option without a colon is a bare key and passes through unchanged. */
  function Criterion(option: string): (c: string)
    ensures ':' !in option ==> c == option
  {
    var parts := Split(option, ':');
    assert ':' !in option ==> parts == [option] by {
      if ':' !in option { SplitJoin([option], ':'); }
    }
    var key := parts[0];
    var descending := |parts| > 1 && parts[1] == "desc";
    (if descending then "-" else "") + key
  }

  /** The criteria of a `sortBy` value, one per comma-separated option, in order. */
  function Criteria(sortBy: string): (cs: seq<string>)
    ensures |cs| == |Split(sortBy, ',')|
    ensures forall i :: 0 <= i < |cs| ==> cs[i] == Criterion(Split(sortBy, ',')[i])
    ensures (forall i :: 0 <= i < |Split(sortBy, ',')| ==> ':' !in Split(sortBy, ',')[i]) ==>
      cs == Split(sortBy, ',')
  {
    var options := Split(sortBy, ',');
    seq(|options|, i requires 0 <= i < |options| => Criterion(options[i]))
  }

  /** The string handed to `sort`: the criteria joined by single spaces, or
      `createdAt` when no `sortBy` is given. */
  function SortSpec(sortBy: Option<string>): (spec: string)
    ensures !Truthy(sortBy) ==> spec == DefaultSort
    ensures Truthy(sortBy) ==> spec == Join(Criteria(sortBy.value), ' ')
  {
    if Truthy(sortBy) then Join(Criteria(sortBy.value), ' ') else DefaultSort
  }

  /** An option `key:rest` is read as its key, negated exactly when the text
      after the first colon, up to any further colon, is `desc`. */
  lemma CriterionOfOption(key: string, rest: string)
    requires ':' !in key
    ensures Criterion(key + ":" + rest) == (if Split(rest, ':')[0] == "desc" then "-" else "") + key
  {
    var parts := [key] + Split(rest, ':');
    assert parts[1..] == Split(rest, ':');
    assert Join(parts, ':') == key + ":" + rest;
    SplitJoin(parts, ':');
  }

  /** `key:order` with colon-free key and order: `-key` for `desc`, `key` for any
      other order, `DESC` and misspellings included. */
  lemma CriterionOfKeyOrder(key: string, order: string)
    requires ':' !in key && ':' !in order
    ensures Criterion(key + ":" + order) == (if order == "desc" then "-" else "") + key
  {
    CriterionOfOption(key, order);
    SplitJoin([order], ':');
  }

  /** Only the exact lower-case `desc` reverses the order; a bare key is kept. */
  lemma CriterionExamples()
    ensures Criterion("name:desc") == "-name"
    ensures Criterion("name:DESC") == "name"
    ensures Criterion("name:asc") == "name"
    ensures Criterion("name") == "name"
  {
    var key := "name";
    assert ':' !in key;
    assert "name:desc" == key + ":" + "desc";
    CriterionOfKeyOrder(key, "desc");
    assert "-" + key == "-name";
    assert "name:DESC" == key + ":" + "DESC";
    CriterionOfKeyOrder(key, "DESC");
    assert "name:asc" == key + ":" + "asc";
    CriterionOfKeyOrder(key, "asc");
  }

  /** A sort key with its direction, as a caller means it. */
  datatype SortKey = SortKey(key: string, descending: bool)

  /** A key that fits the `key:order` syntax and the space-separated sort string. */
  predicate PlainKey(key: string)
  {
    ',' !in key && ':' !in key && ' ' !in key
  }

  /** How a caller writes one key in `sortBy`. */
  function Written(k: SortKey): string
  {
    k.key + (if k.descending then ":desc" else ":asc")
  }

  /** What the sort string should hold for one key. */
  function Intended(k: SortKey): string
  {
    (if k.descending then "-" else "") + k.key
  }

  /** A written key yields its intended criterion. */
  lemma CriterionOfWritten(k: SortKey)
    requires PlainKey(k.key)
    ensures Criterion(Written(k)) == Intended(k)
  {
    var order := if k.descending then "desc" else "asc";
    assert Written(k) == k.key + ":" + order;
    CriterionOfKeyOrder(k.key, order);
  }

  /** How a caller writes a list of keys, one option each. */
  function WrittenAll(keys: seq<SortKey>): (ws: seq<string>)
    ensures |ws| == |keys| && forall i :: 0 <= i < |keys| ==> ws[i] == Written(keys[i])
  {
    seq(|keys|, i requires 0 <= i < |keys| => Written(keys[i]))
  }

  /** The criteria a list of keys should give. */
  function IntendedAll(keys: seq<SortKey>): (cs: seq<string>)
    ensures |cs| == |keys| && forall i :: 0 <= i < |keys| ==> cs[i] == Intended(keys[i])
  {
    seq(|keys|, i requires 0 <= i < |keys| => Intended(keys[i]))
  }

  /** Comma-joined written keys are read back as their intended criteria. */
  lemma CriteriaOfWritten(keys: seq<SortKey>)
    requires |keys| >= 1
    requires forall i :: 0 <= i < |keys| ==> PlainKey(keys[i].key)
    ensures Criteria(Join(WrittenAll(keys), ',')) == IntendedAll(keys)
  {
    var written := WrittenAll(keys);
    forall i | 0 <= i < |written|
      ensures ',' !in written[i]
    {
      assert ',' !in (if keys[i].descending then ":desc" else ":asc");
    }
    SplitJoin(written, ',');
    forall i | 0 <= i < |keys|
      ensures Criteria(Join(written, ','))[i] == IntendedAll(keys)[i]
    {
      CriterionOfWritten(keys[i]);
    }
  }

  /** Written keys, comma-joined, come back as their criteria in the same order:
      splitting the sort string on spaces recovers them one by one. */
  lemma {:induction false} SortSpecRoundTrip(keys: seq<SortKey>)
    requires |keys| >= 1
    requires forall i :: 0 <= i < |keys| ==> PlainKey(keys[i].key)
    ensures SortSpec(Some(Join(WrittenAll(keys), ','))) == Join(IntendedAll(keys), ' ')
    ensures Split(SortSpec(Some(Join(WrittenAll(keys), ','))), ' ') == IntendedAll(keys)
  {
    var written := WrittenAll(keys);
    var intended := IntendedAll(keys);
    assert |Join(written, ',')| > 0 by {
      assert |written[0]| > 0;
      JoinNonEmpty(written, ',');
    }
    CriteriaOfWritten(keys);
    forall i | 0 <= i < |intended|
      ensures ' ' !in intended[i]
    {
      assert ' ' !in (if keys[i].descending then "-" else "");
    }
    SplitJoin(intended, ' ');
  }

  /** Joining a non-empty list of non-empty pieces is non-empty. */
  lemma JoinNonEmpty(parts: seq<string>, sep: char)
    requires |parts| >= 1 && |parts[0]| > 0
    ensures |Join(parts, sep)| > 0
  {
  }

  // -----------------------------------------------------------------------
  // Limit, page, skip, page count

  const DefaultLimit := 10
  const DefaultPage := 1

  /** `v && parseInt(v, 10) > 0 ? parseInt(v, 10) : fallback`. */
  function PositiveOr(v: Option<string>, fallback: int): (r: int)
    ensures Truthy(v) && ParseInt(v.value).Some? && ParseInt(v.value).value > 0 ==> r == ParseInt(v.value).value
    ensures !(Truthy(v) && ParseInt(v.value).Some? && ParseInt(v.value).value > 0) ==> r == fallback
  {
    if Truthy(v) then
      var n := ParseInt(v.value);
      if n.Some? && n.value > 0 then n.value else fallback
    else fallback
  }

  function EffectiveLimit(options: Options): (limit: int)
    ensures limit >= 1
  {
    PositiveOr(options.limit, DefaultLimit)
  }

  function EffectivePage(options: Options): (page: int)
    ensures page >= 1
  {
    PositiveOr(options.page, DefaultPage)
  }

  /** A positive number written in decimal is taken as is, for the limit and
      for the page. */
  lemma PositiveRoundTrip(n: nat, fallback: int)
    requires n >= 1
    ensures PositiveOr(Some(NatToString(n)), fallback) == n
  {
    ParseIntOfNatToString(n);
  }

  /** Zero is not a valid page size or page: the default applies. */
  lemma ZeroFallsBack(fallback: int)
    ensures PositiveOr(Some("0"), fallback) == fallback
  {
    ParseIntOfNatToString(0);
    assert NatToString(0) == "0";
  }

  /** `(page - 1) * limit`. */
  function Skip(page: int, limit: int): (skip: nat)
    requires page >= 1 && limit >= 1
    ensures skip + limit == page * limit
  {
    MulMono(0, page - 1, limit);
    (page - 1) * limit
  }

  lemma MulMono(a: int, b: int, c: int)
    requires a <= b && c >= 0
    ensures a * c <= b * c
  {
    assert b * c - a * c == (b - a) * c;
  }

  lemma MulLessCancel(a: int, b: int, c: int)
    requires c > 0 && a * c < b * c
    ensures a < b
  {
    if a >= b {
      MulMono(b, a, c);
    }
  }

  /** `Math.ceil(totalResults / limit)`. */
  function TotalPages(total: nat, limit: int): (pages: nat)
    requires limit >= 1
    ensures pages == 0 <==> total == 0
    ensures total > 0 ==> (pages - 1) * limit < total <= pages * limit
  {
    (total + limit - 1) / limit
  }

  /** The page count is the only number with the ceiling property. */
  lemma TotalPagesUnique(total: nat, limit: int, p: nat)
    requires limit >= 1 && total > 0
    requires (p - 1) * limit < total <= p * limit
    ensures p == TotalPages(total, limit)
  {
    var q := TotalPages(total, limit);
    MulLessCancel(p - 1, q, limit);
    MulLessCancel(q - 1, p, limit);
  }

  // -----------------------------------------------------------------------
  // The page of results

  datatype Page<T> = Page(results: seq<T>, page: int, limit: int, totalPages: nat, totalResults: nat)

  /** `skip(skip).limit(limit)` over the matching documents in sort order. */
  function Window<T>(docs: seq<T>, skip: nat, limit: nat): (w: seq<T>)
    ensures |w| <= limit
    ensures skip + limit <= |docs| ==> w == docs[skip..skip + limit]
    ensures skip >= |docs| ==> w == []
    ensures forall i :: 0 <= i < |w| ==> skip + i < |docs| && w[i] == docs[skip + i]
  {
    if skip >= |docs| then []
    else if skip + limit <= |docs| then docs[skip..skip + limit]
    else docs[skip..]
  }

  /** `Model.paginate(filter, options)` with `docs` the matching documents in
      sort order. */
  function Paginate<T>(docs: seq<T>, options: Options): (p: Page<T>)
    ensures p.limit == EffectiveLimit(options) && p.page == EffectivePage(options)
    ensures p.totalResults == |docs|
    ensures p.totalPages == TotalPages(|docs|, p.limit)
    ensures p.results == Window(docs, Skip(p.page, p.limit), p.limit)
    ensures p.page <= p.totalPages ==> 1 <= |p.results| <= p.limit
    ensures p.page > p.totalPages ==> p.results == []
    ensures p.page < p.totalPages ==> |p.results| == p.limit
  {
    var limit := EffectiveLimit(options);
    var page := EffectivePage(options);
    var skip := Skip(page, limit);
    var total := TotalPages(|docs|, limit);
    PageBounds(|docs|, limit, page);
    Page(Window(docs, skip, limit), page, limit, total, |docs|)
  }

  /** Where page `page` starts relative to the documents, given the page count. */
  lemma PageBounds(n: nat, limit: int, page: int)
    requires limit >= 1 && page >= 1
    ensures var skip := Skip(page, limit); var total := TotalPages(n, limit);
      && (page <= total ==> skip < n)
      && (page > total ==> skip >= n)
      && (page < total ==> skip + limit <= n)
  {
    var total := TotalPages(n, limit);
    if page <= total {
      MulMono(page - 1, total - 1, limit);
    } else {
      MulMono(total, page - 1, limit);
    }
    if page < total {
      MulMono(page, total - 1, limit);
    }
  }

  /** The results of pages `1..n` laid end to end. */
  function PagesUpTo<T>(docs: seq<T>, limit: nat, n: nat): seq<T>
    requires limit >= 1
  {
    if n == 0 then [] else PagesUpTo(docs, limit, n - 1) + Window(docs, (n - 1) * limit, limit)
  }

  /** The pages, in order, cover the documents exactly once. */
  lemma {:induction false} PagesPartition<T>(docs: seq<T>, limit: nat)
    requires limit >= 1
    ensures PagesUpTo(docs, limit, TotalPages(|docs|, limit)) == docs
  {
    var n := TotalPages(|docs|, limit);
    PagesPrefix(docs, limit, n);
    if n > 0 {
      assert n * limit >= |docs|;
    }
  }

  lemma {:induction false} PagesPrefix<T>(docs: seq<T>, limit: nat, n: nat)
    requires limit >= 1
    ensures PagesUpTo(docs, limit, n) == docs[..if n * limit <= |docs| then n * limit else |docs|]
  {
    if n > 0 {
      PagesPrefix(docs, limit, n - 1);
      var m := (n - 1) * limit;
      assert m + limit == n * limit;
      var lo := if m <= |docs| then m else |docs|;
      var hi := if m + limit <= |docs| then m + limit else |docs|;
      var w := Window(docs, m, limit);
      assert w == docs[lo..hi] by {
        if m >= |docs| {
        } else if m + limit <= |docs| {
        } else {
          assert forall i :: 0 <= i < |w| ==> w[i] == docs[m + i];
        }
      }
      assert docs[..lo] + docs[lo..hi] == docs[..hi];
    }
  }

  // -----------------------------------------------------------------------
  // Populate

  /** `{ path, populate }`, bottoming out in `{}`. */
  datatype PopulateSpec = Empty | Nested(path: string, populate: PopulateSpec)

  function Depth(p: PopulateSpec): nat
  {
    match p
    case Empty => 0
    case Nested(_, inner) => 1 + Depth(inner)
  }

  /** The paths from the outermost level inwards. */
  function Paths(p: PopulateSpec): seq<string>
  {
    match p
    case Empty => []
    case Nested(path, inner) => [path] + Paths(inner)
  }

  function Reverse<T>(s: seq<T>): (r: seq<T>)
    ensures |r| == |s|
    ensures forall i :: 0 <= i < |s| ==> r[i] == s[|s| - 1 - i]
  {
    if |s| == 0 then [] else Reverse(s[1..]) + [s[0]]
  }

  /** `reduce((acc, path) => ({ path, populate: acc }), acc)`. */
  function Wrap(paths: seq<string>, acc: PopulateSpec): (p: PopulateSpec)
    ensures Depth(p) == |paths| + Depth(acc)
  {
    if |paths| == 0 then acc else Wrap(paths[1..], Nested(paths[0], acc))
  }

  /** One populate option: split on `.`, reversed, folded from `{}`. */
  function PopulateOption(option: string): (p: PopulateSpec)
    ensures Depth(p) == |Split(option, '.')| >= 1
  {
    Wrap(Reverse(Split(option, '.')), Empty)
  }

  /** Folding the reversed segments nests them from the outside in. */
  lemma {:induction false} WrapReverse(segs: seq<string>, acc: PopulateSpec)
    ensures Paths(Wrap(Reverse(segs), acc)) == segs + Paths(acc)
    decreases |segs|
  {
    if |segs| > 0 {
      var last := segs[|segs| - 1];
      var init := segs[..|segs| - 1];
      assert Reverse(segs) == [last] + Reverse(init) by {
        ReverseSnoc(init, last);
        assert init + [last] == segs;
      }
      assert Reverse(segs)[1..] == Reverse(init);
      WrapReverse(init, Nested(last, acc));
      assert init + ([last] + Paths(acc)) == segs + Paths(acc);
    }
  }

  lemma ReverseSnoc<T>(s: seq<T>, x: T)
    ensures Reverse(s + [x]) == [x] + Reverse(s)
  {
  }

  /** A dotted option nests its segments in order: `a.b.c` becomes
      `{path: a, populate: {path: b, populate: {path: c, populate: {}}}}`. */
  lemma PopulateNesting(option: string)
    ensures Paths(PopulateOption(option)) == Split(option, '.')
    ensures Depth(PopulateOption(option)) == |Split(option, '.')|
  {
    WrapReverse(Split(option, '.'), Empty);
  }

  /** The specifications passed to `populate`, one per comma-separated option. */
  function PopulateSpecs(populate: Option<string>): (specs: seq<PopulateSpec>)
    ensures !Truthy(populate) ==> specs == []
    ensures Truthy(populate) ==> |specs| == |Split(populate.value, ',')|
    ensures Truthy(populate) ==>
      forall i :: 0 <= i < |specs| ==> specs[i] == PopulateOption(Split(populate.value, ',')[i])
  {
    if !Truthy(populate) then []
    else
      var options := Split(populate.value, ',');
      seq(|options|, i requires 0 <= i < |options| => PopulateOption(options[i]))
  }
}
