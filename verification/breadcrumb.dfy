/**
 The breadcrumb trail shown above every dashboard page, derived from the
 current pathname: a fixed home crumb, then one crumb per non-empty
 `/`-separated segment, linking to the path up to and including it.
 `decodeURIComponent` is the parameter `decode`.
 */
module Breadcrumb {

  const HomeName := "Beranda"
  const HomeHref := "/"

  datatype Crumb = Crumb(name: string, href: string)

  function Last<T>(s: seq<T>): T
    requires s != []
  {
    s[|s| - 1]
  }

  function Init<T>(s: seq<T>): seq<T>
    requires s != []
  {
    s[..|s| - 1]
  }

  /** A non-empty sequence is its front followed by its last element. */
  lemma InitLast<T>(s: seq<T>)
    requires s != []
    ensures Init(s) + [Last(s)] == s
  {
  }

  // ---------------------------------------------------------------------
  // Splitting and joining on '/'

  /** `s.split('/')`: the maximal slash-free pieces between separators, empty
      pieces included, so there is always one more piece than there are slashes. */
  function Split(s: string): (parts: seq<string>)
    ensures |parts| >= 1
    ensures forall i :: 0 <= i < |parts| ==> '/' !in parts[i]
  {
    if s == [] then [[]]
    else
      var rest := Split(Init(s));
      if Last(s) == '/' then rest + [[]]
      else Init(rest) + [Last(rest) + [Last(s)]]
  }

  /** `parts.join('/')`. */
  function Join(parts: seq<string>): string {
    if parts == [] then []
    else if |parts| == 1 then parts[0]
    else Join(Init(parts)) + "/" + Last(parts)
  }

  /** Splitting and joining again gives back the original text. */
  lemma {:induction false} JoinSplit(s: string)
    ensures Join(Split(s)) == s
  {
    if s != [] {
      JoinSplit(Init(s));
      JoinSplitLast(s);
    }
  }

  /** The round trip for a text follows from the one for all but its last
      character. */
  lemma JoinSplitLast(s: string)
    requires s != []
    requires Join(Split(Init(s))) == Init(s)
    ensures Join(Split(s)) == s
  {
    var rest := Split(Init(s));
    if Last(s) == '/' {
      JoinAppend(rest, []);
      assert Join(rest) + "/" + [] == Init(s) + [Last(s)];
    } else {
      JoinExtendLast(rest, Last(s));
    }
    InitLast(s);
  }

  /** Extending the last piece extends the joined text. */
  lemma JoinExtendLast(parts: seq<string>, c: char)
    requires parts != []
    ensures Join(Init(parts) + [Last(parts) + [c]]) == Join(parts) + [c]
  {
    var p := Init(parts) + [Last(parts) + [c]];
    if |parts| > 1 {
      assert Init(p) == Init(parts);
      assert Last(p) == Last(parts) + [c];
      assert Join(Init(parts)) + "/" + (Last(parts) + [c]) == (Join(Init(parts)) + "/" + Last(parts)) + [c];
    } else {
      assert p == [Last(parts) + [c]];
    }
  }

  /** `parts.filter(seg => seg)`: the empty pieces removed, every non-empty
      piece kept once and in order (see NonEmptyAppend and NonEmptySingle). */
  function NonEmpty(parts: seq<string>): (r: seq<string>)
    ensures |r| <= |parts|
    ensures forall i :: 0 <= i < |r| ==> r[i] != [] && r[i] in parts
    ensures forall i :: 0 <= i < |parts| && parts[i] != [] ==> parts[i] in r
  {
    if parts == [] then []
    else
      var rest := NonEmpty(Init(parts));
      NonEmptyStep(parts, rest);
      rest + (if Last(parts) == [] then [] else [Last(parts)])
  }

  /** The kept pieces of a sequence, from those of all but its last piece. */
  lemma NonEmptyStep(parts: seq<string>, rest: seq<string>)
    requires parts != []
    requires |rest| <= |Init(parts)|
    requires forall i :: 0 <= i < |rest| ==> rest[i] != [] && rest[i] in Init(parts)
    requires forall i :: 0 <= i < |Init(parts)| && Init(parts)[i] != [] ==> Init(parts)[i] in rest
    ensures var r := rest + (if Last(parts) == [] then [] else [Last(parts)]);
            && |r| <= |parts|
            && (forall i :: 0 <= i < |r| ==> r[i] != [] && r[i] in parts)
            && (forall i :: 0 <= i < |parts| && parts[i] != [] ==> parts[i] in r)
  {
    var init := Init(parts);
    var r := rest + (if Last(parts) == [] then [] else [Last(parts)]);
    forall i | 0 <= i < |r| ensures r[i] != [] && r[i] in parts {
      if i < |rest| {
        assert rest[i] in init;
        assert r[i] == rest[i];
      }
    }
    forall i | 0 <= i < |parts| && parts[i] != [] ensures parts[i] in r {
      if i < |parts| - 1 {
        assert parts[i] == init[i];
      }
    }
  }

  /** Filtering a concatenation filters each part and keeps their order. */
  lemma {:induction false} NonEmptyAppend(a: seq<string>, b: seq<string>)
    ensures NonEmpty(a + b) == NonEmpty(a) + NonEmpty(b)
    decreases |b|
  {
    if b == [] {
      assert a + b == a;
    } else {
      var tail := if Last(b) == [] then [] else [Last(b)];
      assert Init(a + b) == a + Init(b);
      calc {
        NonEmpty(a + b);
        { assert Last(a + b) == Last(b); }
        NonEmpty(a + Init(b)) + tail;
        { NonEmptyAppend(a, Init(b)); }
        (NonEmpty(a) + NonEmpty(Init(b))) + tail;
        NonEmpty(a) + (NonEmpty(Init(b)) + tail);
        NonEmpty(a) + NonEmpty(b);
      }
    }
  }

  /** A single piece is kept exactly when it is non-empty. */
  lemma NonEmptySingle(piece: string)
    ensures NonEmpty([piece]) == if piece == [] then [] else [piece]
  {
    assert Init([piece]) == [];
  }

  /** The segments of a pathname: non-empty and free of slashes. */
  function Segments(pathname: string): (segs: seq<string>)
    ensures forall i :: 0 <= i < |segs| ==> segs[i] != [] && '/' !in segs[i]
  {
    NonEmpty(Split(pathname))
  }

  /** Concatenation of a sequence of strings. */
  function Concat(parts: seq<string>): string {
    if parts == [] then [] else Concat(Init(parts)) + Last(parts)
  }

  /** `s` with every slash removed. */
  function WithoutSlashes(s: string): (t: string)
    ensures '/' !in t
  {
    if s == [] then []
    else WithoutSlashes(Init(s)) + (if Last(s) == '/' then [] else [Last(s)])
  }

  lemma {:induction false} ConcatAppend(a: seq<string>, b: seq<string>)
    ensures Concat(a + b) == Concat(a) + Concat(b)
    decreases |b|
  {
    if b == [] {
      assert a + b == a;
    } else {
      assert Init(a + b) == a + Init(b);
      assert Last(a + b) == Last(b);
      ConcatAppend(a, Init(b));
      calc {
        Concat(a + b);
        Concat(a + Init(b)) + Last(b);
        (Concat(a) + Concat(Init(b))) + Last(b);
        Concat(a) + (Concat(Init(b)) + Last(b));
      }
    }
  }

  lemma {:induction false} ConcatSplit(s: string)
    ensures Concat(Split(s)) == WithoutSlashes(s)
  {
    if s != [] {
      var rest := Split(Init(s));
      ConcatSplit(Init(s));
      if Last(s) == '/' {
        ConcatAppend(rest, [[]]);
      } else {
        assert rest == Init(rest) + [Last(rest)];
        ConcatAppend(Init(rest), [Last(rest)]);
        ConcatAppend(Init(rest), [Last(rest) + [Last(s)]]);
      }
    }
  }

  lemma {:induction false} ConcatNonEmpty(parts: seq<string>)
    ensures Concat(NonEmpty(parts)) == Concat(parts)
  {
    if parts != [] {
      ConcatNonEmpty(Init(parts));
      ConcatAppend(NonEmpty(Init(parts)), if Last(parts) == [] then [] else [Last(parts)]);
    }
  }

  /** Dropping empty pieces loses only slashes: the segments spell out the
      pathname with its slashes (leading, doubled and trailing) removed. */
  lemma SegmentsSpellPath(pathname: string)
    ensures Concat(Segments(pathname)) == WithoutSlashes(pathname)
  {
    ConcatNonEmpty(Split(pathname));
    ConcatSplit(pathname);
  }

  /** Appending a slash-free piece after a separator adds exactly one piece. */
  lemma {:induction false} SplitAppendPiece(s: string, x: string)
    requires '/' !in x
    ensures Split(s + "/" + x) == Split(s) + [x]
    decreases |x|
  {
    if x == [] {
      assert s + "/" + x == s + "/";
      assert Init(s + "/") == s;
    } else {
      var t := s + "/" + Init(x);
      assert s + "/" + x == t + [Last(x)];
      assert Init(t + [Last(x)]) == t;
      SplitAppendPiece(s, Init(x));
      assert Init(x) + [Last(x)] == x;
    }
  }

  /** The pathname written out from a sequence of segments. */
  function PathOf(segs: seq<string>): string {
    "/" + Join(segs)
  }

  /** A non-empty slash-free piece after a separator adds exactly one segment. */
  lemma SegmentsAppend(s: string, x: string)
    requires x != [] && '/' !in x
    ensures Segments(s + "/" + x) == Segments(s) + [x]
  {
    SplitAppendPiece(s, x);
    assert Init(Split(s) + [x]) == Split(s);
  }

  /** The root path has no segments. */
  lemma SegmentsOfRoot()
    ensures Segments("/") == []
  {
    assert Split("/") == [[], []] by {
      assert Init("/") == [];
    }
  }

  /** A single segment written as a path reads back as itself. */
  lemma SegmentsOfSingle(x: string)
    requires x != [] && '/' !in x
    ensures Segments(PathOf([x])) == [x]
  {
    assert PathOf([x]) == [] + "/" + x;
    SegmentsAppend([], x);
    var empty: seq<string> := [[]];
    assert NonEmpty(empty) == [] by {
      assert Init(empty) == [];
    }
  }

  /** The path of two or more segments is the path of all but the last, a
      slash, and the last. */
  lemma PathOfSnoc(segs: seq<string>)
    requires |segs| >= 2
    ensures PathOf(segs) == PathOf(Init(segs)) + "/" + Last(segs)
  {
    assert Join(segs) == Join(Init(segs)) + "/" + Last(segs);
    assert "/" + (Join(Init(segs)) + "/" + Last(segs)) == ("/" + Join(Init(segs))) + "/" + Last(segs);
  }

  /** Writing segments out as a pathname and reading them back loses nothing. */
  lemma {:induction false} SegmentsOfPath(segs: seq<string>)
    requires forall i :: 0 <= i < |segs| ==> segs[i] != [] && '/' !in segs[i]
    ensures Segments(PathOf(segs)) == segs
  {
    if segs == [] {
      SegmentsOfRoot();
      assert PathOf(segs) == "/";
    } else if |segs| == 1 {
      SegmentsOfSingle(segs[0]);
      assert segs == [segs[0]];
    } else {
      SegmentsOfPath(Init(segs));
      SegmentsSnoc(segs);
    }
  }

  /** If all but the last segment read back, so do all of them. */
  lemma SegmentsSnoc(segs: seq<string>)
    requires |segs| >= 2 && Last(segs) != [] && '/' !in Last(segs)
    requires Segments(PathOf(Init(segs))) == Init(segs)
    ensures Segments(PathOf(segs)) == segs
  {
    PathOfSnoc(segs);
    SegmentsAppend(PathOf(Init(segs)), Last(segs));
    assert segs == Init(segs) + [Last(segs)];
  }

  // ---------------------------------------------------------------------
  // Crumbs

  function UpperAscii(c: char): (u: char)
    ensures 'a' <= c <= 'z' ==> u as int == c as int - 32
    ensures !('a' <= c <= 'z') ==> u == c
  {
    if 'a' <= c <= 'z' then (c as int - 32) as char else c
  }

  /** `seg.charAt(0).toUpperCase() + seg.slice(1)`. */
  function Capitalize(seg: string): (r: string)
    ensures |r| == |seg|
    ensures seg != [] ==> r[0] == UpperAscii(seg[0]) && r[1..] == seg[1..]
  {
    if seg == [] then [] else [UpperAscii(seg[0])] + seg[1..]
  }

  /** The crumb of segment `k`: its capitalised, decoded name and the path of
      the first `k + 1` segments. */
  function SegmentCrumb(segs: seq<string>, k: nat, decode: string -> string): Crumb
    requires k < |segs|
  {
    Crumb(decode(Capitalize(segs[k])), "/" + Join(segs[..k + 1]))
  }

  /** The trail for a sequence of segments: the home crumb first, then one
      crumb per segment. */
  function Trail(segs: seq<string>, decode: string -> string): (r: seq<Crumb>)
    ensures |r| == 1 + |segs|
    ensures r[0] == Crumb(HomeName, HomeHref)
    ensures forall k :: 1 <= k < |r| ==> r[k] == SegmentCrumb(segs, k - 1, decode)
  {
    seq(1 + |segs|, k requires 0 <= k <= |segs| =>
      if k == 0 then Crumb(HomeName, HomeHref) else SegmentCrumb(segs, k - 1, decode))
  }

  /** The trail for a pathname. */
  function Crumbs(pathname: string, decode: string -> string): (r: seq<Crumb>)
    ensures |r| == 1 + |Segments(pathname)|
    ensures r[0] == Crumb(HomeName, HomeHref)
    ensures forall k :: 1 <= k < |r| ==> r[k] == SegmentCrumb(Segments(pathname), k - 1, decode)
  {
    Trail(Segments(pathname), decode)
  }

  /** The root path has only the home crumb. */
  lemma RootHasOnlyHome(decode: string -> string)
    ensures Crumbs("/", decode) == [Crumb(HomeName, HomeHref)]
  {
    SegmentsOfPath([]);
    assert PathOf([]) == "/";
  }

  lemma JoinAppend(parts: seq<string>, x: string)
    requires parts != []
    ensures Join(parts + [x]) == Join(parts) + "/" + x
  {
    assert Init(parts + [x]) == parts;
  }

  /** The link of segment `k + 1` is the link of segment `k`, a slash, and
      segment `k + 1`. */
  lemma SegmentHrefStep(segs: seq<string>, k: nat, decode: string -> string)
    requires k + 1 < |segs|
    ensures SegmentCrumb(segs, k + 1, decode).href == SegmentCrumb(segs, k, decode).href + "/" + segs[k + 1]
  {
    assert segs[..k + 2] == segs[..k + 1] + [segs[k + 1]];
    JoinAppend(segs[..k + 1], segs[k + 1]);
  }

  /** A link followed by a slash and a non-empty segment properly extends it. */
  lemma ProperPrefix(a: string, x: string)
    requires x != []
    ensures a < a + "/" + x && |a| < |a + "/" + x|
  {
    assert (a + "/" + x)[..|a|] == a;
  }

  /** The home link `/` is a proper prefix of the first segment's link. */
  lemma FirstHrefNested(segs: seq<string>, decode: string -> string)
    requires segs != [] && segs[0] != []
    ensures var b := SegmentCrumb(segs, 0, decode).href;
            HomeHref < b && |HomeHref| < |b|
  {
    assert SegmentCrumb(segs, 0, decode).href == [] + "/" + segs[0] by {
      assert Join(segs[..1]) == segs[0];
    }
    ProperPrefix([], segs[0]);
  }

  /** Segment `j - 1`'s link is a proper prefix of segment `j`'s. */
  lemma NextHrefNested(segs: seq<string>, decode: string -> string, j: nat)
    requires 1 <= j < |segs| && segs[j] != []
    ensures var a := SegmentCrumb(segs, j - 1, decode).href;
            var b := SegmentCrumb(segs, j, decode).href;
            a < b && |a| < |b|
  {
    var i := j - 1;
    SegmentHrefStep(segs, i, decode);
    assert i + 1 == j;
    ProperPrefix(SegmentCrumb(segs, i, decode).href, segs[j]);
  }

  /** The trail's link at position `k`, and the one after it. */
  lemma TrailHrefAt(segs: seq<string>, decode: string -> string, k: nat)
    requires k < |segs|
    ensures Trail(segs, decode)[k].href == if k == 0 then HomeHref else SegmentCrumb(segs, k - 1, decode).href
    ensures Trail(segs, decode)[k + 1].href == SegmentCrumb(segs, k, decode).href
  {
  }

  /** Each link of a trail of non-empty segments is a proper prefix of the next. */
  lemma TrailHrefsNested(segs: seq<string>, decode: string -> string, k: nat)
    requires forall i :: 0 <= i < |segs| ==> segs[i] != []
    requires k < |segs|
    ensures var r := Trail(segs, decode);
            && r[k].href < r[k + 1].href
            && |r[k].href| < |r[k + 1].href|
  {
    TrailHrefAt(segs, decode, k);
    if k == 0 {
      FirstHrefNested(segs, decode);
    } else {
      NextHrefNested(segs, decode, k);
    }
  }

  /** Each crumb's link extends the one before it by `/` and one segment, so
      the links are strictly longer from left to right: each is a proper prefix
      of the next. */
  lemma HrefsNested(pathname: string, decode: string -> string, k: nat)
    requires k + 1 < |Crumbs(pathname, decode)|
    ensures var r := Crumbs(pathname, decode);
            && r[k].href < r[k + 1].href
            && |r[k].href| < |r[k + 1].href|
  {
    TrailHrefsNested(Segments(pathname), decode, k);
  }

  /** In a list whose links grow strictly in length between neighbours, they
      grow between any two positions. */
  lemma {:induction false} HrefsLonger(r: seq<Crumb>, i: nat, j: nat)
    requires forall k :: 0 <= k < |r| - 1 ==> |r[k].href| < |r[k + 1].href|
    requires i < j < |r|
    ensures |r[i].href| < |r[j].href|
    decreases j - i
  {
    if i < j - 1 {
      HrefsLonger(r, i, j - 1);
    }
  }

  /** No two crumbs share a link, so `key={crumb.href}` keys the rendered list
      uniquely. */
  lemma KeysDistinct(pathname: string, decode: string -> string)
    ensures var r := Crumbs(pathname, decode);
            forall i, j :: 0 <= i < j < |r| ==> r[i].href != r[j].href
  {
    var r := Crumbs(pathname, decode);
    forall k | 0 <= k < |r| - 1 ensures |r[k].href| < |r[k + 1].href| {
      HrefsNested(pathname, decode, k);
    }
    forall i, j | 0 <= i < j < |r| ensures r[i].href != r[j].href {
      HrefsLonger(r, i, j);
    }
  }

  /** For a pathname written out from its segments, the last crumb links to the
      pathname itself. */
  lemma LastCrumbIsPage(segs: seq<string>, decode: string -> string)
    requires forall i :: 0 <= i < |segs| ==> segs[i] != [] && '/' !in segs[i]
    ensures Last(Crumbs(PathOf(segs), decode)).href == PathOf(segs)
  {
    SegmentsOfPath(segs);
    if segs != [] {
      assert segs[..|segs|] == segs;
    }
  }

  // ---------------------------------------------------------------------
  // Rendering

  /** One list entry as rendered: the link, whether it is styled as the
      current page, and whether a `/` separator follows it. */
  datatype Item = Item(crumb: Crumb, current: bool, separator: bool)

  function Render(crumbs: seq<Crumb>): (items: seq<Item>)
    ensures |items| == |crumbs|
    ensures forall i :: 0 <= i < |items| ==> items[i].crumb == crumbs[i]
    ensures forall i :: 0 <= i < |items| ==> (items[i].current <==> i == |crumbs| - 1)
    ensures forall i :: 0 <= i < |items| ==> (items[i].separator <==> !items[i].current)
  {
    seq(|crumbs|, i requires 0 <= i < |crumbs| => Item(crumbs[i], i == |crumbs| - 1, i < |crumbs| - 1))
  }
}
