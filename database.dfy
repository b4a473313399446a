/** The database helpers of whatifstocks/database.py: the pagination window
    iter_pages, the record-id acceptance of SurrogatePK.get_by_id and the
    attribute update of CRUDMixin.update. */
module Database {
  import opened Wrappers
  import opened Text

  // ---------------------------------------------------------------------------
  // iter_pages
  // ---------------------------------------------------------------------------

  /** The four thresholds of iter_pages (defaults 2, 2, 5 and 2). */
  datatype Window = Window(leftEdge: int, leftCurrent: int, rightCurrent: int, rightEdge: int)

  /** Whether page `num` is shown: near the left edge, near the current page or
      near the right edge. */
  predicate Listed(pages: int, page: int, w: Window, num: int) {
    || num <= w.leftEdge
    || (num > page - w.leftCurrent - 1 && num < page + w.rightCurrent)
    || num > pages - w.rightEdge
  }

  /** The shown page numbers among 1..n, ascending. */
  function ListedUpTo(pages: int, page: int, w: Window, n: int): seq<int>
    decreases n
  {
    if n < 1 then []
    else ListedUpTo(pages, page, w, n - 1) + (if Listed(pages, page, w, n) then [n] else [])
  }

  /** The shown pages of 1..n are listed, and nothing else is, in ascending order. */
  lemma {:induction false} ListedUpToMembers(pages: int, page: int, w: Window, n: int)
    ensures forall x :: x in ListedUpTo(pages, page, w, n) <==> 1 <= x <= n && Listed(pages, page, w, x)
    ensures forall i, j :: 0 <= i < j < |ListedUpTo(pages, page, w, n)| ==>
      ListedUpTo(pages, page, w, n)[i] < ListedUpTo(pages, page, w, n)[j]
    decreases n
  {
    if n >= 1 {
      ListedUpToMembers(pages, page, w, n - 1);
      var before := ListedUpTo(pages, page, w, n - 1);
      var r := ListedUpTo(pages, page, w, n);
      assert r == before + (if Listed(pages, page, w, n) then [n] else []);
      forall i, j | 0 <= i < j < |r| ensures r[i] < r[j] {
        assert r[i] == before[i] && r[i] in before;
        if j >= |before| {
          assert r[j] == n;
        } else {
          assert r[j] == before[j];
        }
      }
    }
  }

  /** The links for `nums`: a None marker before every number that does not
      follow the previous one (`last` at first). */
  function WithGaps(nums: seq<int>, last: int): seq<Option<int>>
    decreases |nums|
  {
    if nums == [] then []
    else (if last + 1 != nums[0] then [None] else []) + [Some(nums[0])] + WithGaps(nums[1..], nums[0])
  }

  /** The last page number among `links`, or `last` when there is none. */
  function LastNumber(links: seq<Option<int>>, last: int): int
    decreases |links|
  {
    if links == [] then last
    else if links[|links| - 1].Some? then links[|links| - 1].value
    else LastNumber(links[..|links| - 1], last)
  }

  /** What iter_pages yields, as a sequence: the shown pages of 1..pages with the
      gap markers, the previous number starting at 0. */
  function PageLinks(pages: int, page: int, w: Window): seq<Option<int>> {
    WithGaps(ListedUpTo(pages, page, w, pages), 0)
  }

  /** iter_pages: one pass over 1..pages that remembers the last page yielded. */
  method IterPages(pages: int, page: int, leftEdge: int := 2, leftCurrent: int := 2,
                   rightCurrent: int := 5, rightEdge: int := 2)
    returns (links: seq<Option<int>>)
    ensures links == PageLinks(pages, page, Window(leftEdge, leftCurrent, rightCurrent, rightEdge))
  {
    var w := Window(leftEdge, leftCurrent, rightCurrent, rightEdge);
    links := [];
    var last := 0;
    var num := 1;
    while num <= pages
      invariant 1 <= num <= (if pages >= 1 then pages + 1 else 1)
      invariant links == WithGaps(ListedUpTo(pages, page, w, num - 1), 0)
      invariant last == LastOf(ListedUpTo(pages, page, w, num - 1), 0)
    {
      ghost var before := ListedUpTo(pages, page, w, num - 1);
      assert ListedUpTo(pages, page, w, num)
             == before + (if Listed(pages, page, w, num) then [num] else []);
      if Listed(pages, page, w, num) {
        WithGapsSnoc(before, num, 0);
        if last + 1 != num {
          links := links + [None];
        }
        links := links + [Some(num)];
        last := num;
      } else {
        assert before + [] == before;
      }
      num := num + 1;
    }
  }

  /** The last element of nums, or `last` when nums is empty. */
  function LastOf(nums: seq<int>, last: int): int {
    if nums == [] then last else nums[|nums| - 1]
  }

  lemma {:induction false} WithGapsSnoc(nums: seq<int>, x: int, last: int)
    ensures WithGaps(nums + [x], last)
            == WithGaps(nums, last) + (if LastOf(nums, last) + 1 != x then [None] else []) + [Some(x)]
    decreases |nums|
  {
    if nums == [] {
      assert nums + [x] == [x];
    } else {
      assert (nums + [x])[1..] == nums[1..] + [x];
      WithGapsSnoc(nums[1..], x, nums[0]);
    }
  }

  lemma {:induction false} LastNumberAppend(a: seq<Option<int>>, b: seq<Option<int>>, last: int)
    ensures LastNumber(a + b, last) == LastNumber(b, LastNumber(a, last))
    decreases |b|
  {
    if b == [] {
      assert a + b == a;
    } else {
      assert (a + b)[..|a + b| - 1] == a + b[..|b| - 1];
      LastNumberAppend(a, b[..|b| - 1], last);
    }
  }

  /** Page numbers among the links strictly increase. */
  predicate NumbersIncrease(links: seq<Option<int>>) {
    forall i, j :: 0 <= i < j < |links| && links[i].Some? && links[j].Some? ==> links[i].value < links[j].value
  }

  /** Every None marker is followed at once by a page number: so never two
      markers in a row and never a marker at the end. */
  predicate MarkerThenNumber(links: seq<Option<int>>) {
    forall i :: 0 <= i < |links| && links[i].None? ==> i + 1 < |links| && links[i + 1].Some?
  }

  /** A marker stands right before a page number exactly when that number is not
      one more than the number before it (`last` when there is none). */
  predicate MarkersAtGaps(links: seq<Option<int>>, last: int) {
    forall i :: 0 <= i < |links| && links[i].Some? ==>
      ((0 < i && links[i - 1].None?) <==> links[i].value != LastNumber(links[..i], last) + 1)
  }

  /** The numbers among the links are exactly nums (in both directions). */
  lemma {:induction false} WithGapsMembers(nums: seq<int>, last: int)
    ensures forall i :: 0 <= i < |WithGaps(nums, last)| && WithGaps(nums, last)[i].Some?
                        ==> WithGaps(nums, last)[i].value in nums
    ensures forall x :: x in nums ==> Some(x) in WithGaps(nums, last)
    decreases |nums|
  {
    if nums != [] {
      var links := WithGaps(nums, last);
      var marker: seq<Option<int>> := if last + 1 != nums[0] then [None] else [];
      var rest := WithGaps(nums[1..], nums[0]);
      assert links == marker + [Some(nums[0])] + rest;
      WithGapsMembers(nums[1..], nums[0]);
      forall i | 0 <= i < |links| && links[i].Some? ensures links[i].value in nums {
        if i > |marker| {
          assert links[i] == rest[i - |marker| - 1];
          assert links[i].value in nums[1..];
        }
      }
      forall x | x in nums ensures Some(x) in links {
        if x != nums[0] {
          assert x in nums[1..];
          assert Some(x) in rest;
          var k :| 0 <= k < |rest| && rest[k] == Some(x);
          assert links[|marker| + 1 + k] == Some(x);
        } else {
          assert links[|marker|] == Some(x);
        }
      }
    }
  }

  /** Strictly increasing numbers stay strictly increasing among the links. */
  lemma {:induction false} WithGapsIncreasing(nums: seq<int>, last: int)
    requires forall i, j :: 0 <= i < j < |nums| ==> nums[i] < nums[j]
    ensures NumbersIncrease(WithGaps(nums, last))
    decreases |nums|
  {
    if nums != [] {
      var links := WithGaps(nums, last);
      var marker: seq<Option<int>> := if last + 1 != nums[0] then [None] else [];
      var head := marker + [Some(nums[0])];
      var rest := WithGaps(nums[1..], nums[0]);
      assert links == head + rest;
      WithGapsIncreasing(nums[1..], nums[0]);
      WithGapsMembers(nums[1..], nums[0]);
      forall i, j | 0 <= i < j < |links| && links[i].Some? && links[j].Some?
        ensures links[i].value < links[j].value
      {
        if i < |head| {
          assert i == |marker| && links[i].value == nums[0];
          assert links[j] == rest[j - |head|];
          assert links[j].value in nums[1..];
        } else {
          assert links[i] == rest[i - |head|] && links[j] == rest[j - |head|];
        }
      }
    }
  }

  lemma {:induction false} WithGapsMarkerThenNumber(nums: seq<int>, last: int)
    ensures MarkerThenNumber(WithGaps(nums, last))
    decreases |nums|
  {
    if nums != [] {
      var links := WithGaps(nums, last);
      var marker: seq<Option<int>> := if last + 1 != nums[0] then [None] else [];
      var head := marker + [Some(nums[0])];
      var rest := WithGaps(nums[1..], nums[0]);
      assert links == head + rest;
      WithGapsMarkerThenNumber(nums[1..], nums[0]);
      forall i | 0 <= i < |links| && links[i].None?
        ensures i + 1 < |links| && links[i + 1].Some?
      {
        if i < |head| {
          assert i == 0 && marker == [None] && links[1] == Some(nums[0]);
        } else {
          var j := i - |head|;
          assert links[i] == rest[j];
          assert j + 1 < |rest| && rest[j + 1].Some?;
          assert links[i + 1] == rest[j + 1];
        }
      }
    }
  }

  lemma {:induction false} WithGapsMarkersAtGaps(nums: seq<int>, last: int)
    ensures MarkersAtGaps(WithGaps(nums, last), last)
    decreases |nums|
  {
    if nums != [] {
      var links := WithGaps(nums, last);
      var marker: seq<Option<int>> := if last + 1 != nums[0] then [None] else [];
      var head := marker + [Some(nums[0])];
      var rest := WithGaps(nums[1..], nums[0]);
      assert links == head + rest;
      WithGapsMarkersAtGaps(nums[1..], nums[0]);
      assert head[..|head| - 1] == marker;
      assert LastNumber(head, last) == nums[0];
      forall i | 0 <= i < |links| && links[i].Some?
        ensures (0 < i && links[i - 1].None?) <==> links[i].value != LastNumber(links[..i], last) + 1
      {
        if i < |head| {
          assert i == |marker|;
          assert links[..i] == marker;
          assert links[i].value == nums[0];
          if marker != [] {
            assert marker[..0] == [];
            assert LastNumber(marker, last) == last;
            assert links[i - 1] == None;
          }
        } else {
          var j := i - |head|;
          assert links[..i] == head + rest[..j];
          LastNumberAppend(head, rest[..j], last);
          assert links[i] == rest[j];
          if j > 0 {
            assert links[i - 1] == rest[j - 1];
          } else {
            assert links[i - 1] == Some(nums[0]);
            assert rest[..j] == [];
          }
        }
      }
    }
  }

  /** Consecutive numbers starting right after `last` get no markers at all. */
  lemma {:induction false} WithGapsConsecutive(last: int, n: nat)
    ensures WithGaps(seq(n, i => last + 1 + i), last) == seq(n, i => Some(last + 1 + i))
    decreases n
  {
    if n > 0 {
      var nums := seq(n, i => last + 1 + i);
      assert nums[1..] == seq(n - 1, i => (last + 1) + 1 + i);
      WithGapsConsecutive(last + 1, n - 1);
      assert seq(n, i => Some(last + 1 + i)) == [Some(last + 1)] + seq(n - 1, i => Some((last + 1) + 1 + i));
    }
  }

  /** The page numbers are exactly the shown pages of 1..pages, strictly increasing. */
  lemma PageLinksNumbers(pages: int, page: int, w: Window)
    ensures forall i :: 0 <= i < |PageLinks(pages, page, w)| && PageLinks(pages, page, w)[i].Some?
                        ==> 1 <= PageLinks(pages, page, w)[i].value <= pages
    ensures forall x :: Some(x) in PageLinks(pages, page, w) <==> 1 <= x <= pages && Listed(pages, page, w, x)
    ensures NumbersIncrease(PageLinks(pages, page, w))
  {
    var nums := ListedUpTo(pages, page, w, pages);
    var links := PageLinks(pages, page, w);
    assert links == WithGaps(nums, 0);
    ListedUpToMembers(pages, page, w, pages);
    WithGapsMembers(nums, 0);
    WithGapsIncreasing(nums, 0);
    forall i | 0 <= i < |links| && links[i].Some? ensures 1 <= links[i].value <= pages {
      assert links[i].value in nums;
    }
    forall x ensures Some(x) in links <==> 1 <= x <= pages && Listed(pages, page, w, x) {
      if Some(x) in links {
        var i :| 0 <= i < |links| && links[i] == Some(x);
        assert links[i].value in nums;
      }
    }
  }

  /** The edge pages and the pages around the current one always appear. */
  lemma PageLinksEdgesAndWindow(pages: int, page: int, w: Window, num: int)
    requires 1 <= num <= pages
    ensures num <= w.leftEdge ==> Some(num) in PageLinks(pages, page, w)
    ensures num > pages - w.rightEdge ==> Some(num) in PageLinks(pages, page, w)
    ensures page - w.leftCurrent - 1 < num < page + w.rightCurrent ==> Some(num) in PageLinks(pages, page, w)
  {
    PageLinksNumbers(pages, page, w);
  }

  /** The gap markers of the links, the previous number starting at 0. */
  lemma PageLinksMarkers(pages: int, page: int, w: Window)
    ensures MarkerThenNumber(PageLinks(pages, page, w))
    ensures MarkersAtGaps(PageLinks(pages, page, w), 0)
  {
    WithGapsMarkerThenNumber(ListedUpTo(pages, page, w, pages), 0);
    WithGapsMarkersAtGaps(ListedUpTo(pages, page, w, pages), 0);
  }

  /** When page 1 is shown, the links start with it rather than with a marker. */
  lemma PageLinksNoLeadingMarker(pages: int, page: int, w: Window)
    requires 1 <= pages && Listed(pages, page, w, 1)
    ensures |PageLinks(pages, page, w)| > 0 && PageLinks(pages, page, w)[0] == Some(1)
  {
    var nums := ListedUpTo(pages, page, w, pages);
    ListedUpToMembers(pages, page, w, pages);
    assert 1 in nums;
    var k :| 0 <= k < |nums| && nums[k] == 1;
    assert nums[0] in nums;
    if k > 0 {
      assert false;
    }
  }

  /** No pages, no links. */
  lemma PageLinksNoPages(pages: int, page: int, w: Window)
    requires pages <= 0
    ensures PageLinks(pages, page, w) == []
  {
  }

  /** When every page is shown the links are 1..pages with no marker. */
  lemma PageLinksAllShown(pages: nat, page: int, w: Window)
    requires forall num :: 1 <= num <= pages ==> Listed(pages, page, w, num)
    ensures PageLinks(pages, page, w) == seq(pages, i => Some(i + 1))
  {
    var nums := ListedUpTo(pages, page, w, pages);
    AllShownUpTo(pages, page, w, pages);
    WithGapsConsecutive(0, pages);
    assert seq(pages, i => 0 + 1 + i) == nums;
    assert seq(pages, i => Some(0 + 1 + i)) == seq(pages, i => Some(i + 1));
  }

  lemma {:induction false} AllShownUpTo(pages: int, page: int, w: Window, n: nat)
    requires forall num :: 1 <= num <= n ==> Listed(pages, page, w, num)
    ensures ListedUpTo(pages, page, w, n) == seq(n, i => 1 + i)
    decreases n
  {
    if n > 0 {
      AllShownUpTo(pages, page, w, n - 1);
      assert seq(n, i => 1 + i) == seq(n - 1, i => 1 + i) + [n];
    }
  }

  // ---------------------------------------------------------------------------
  // SurrogatePK.get_by_id
  // ---------------------------------------------------------------------------

  /** The kinds of value a caller may pass as a record id. */
  datatype RecordId =
    | IntId(i: int)
    | BoolId(b: bool)      // bool is a subclass of int in Python
    | FloatId(f: real)
    | StrId(s: string)
    | OtherId

  /** int(x) on a float: truncation toward zero. */
  function TruncateTowardZero(f: real): (r: int)
    ensures -1.0 < f - r as real < 1.0
    ensures 0.0 <= f ==> 0 <= r && r as real <= f
    ensures f <= 0.0 ==> r <= 0 && f <= r as real
  {
    if f >= 0.0 then f.Floor else -((-f).Floor)
  }

  /** The primary key get_by_id looks up, or None when it returns None at once:
      only an int (a bool among them), a float, or a non-empty all-digit string
      is accepted, and int() turns it into the key. */
  function LookupKey(id: RecordId): (k: Option<int>)
    ensures k.Some? <==> (id.IntId? || id.BoolId? || id.FloatId? || (id.StrId? && IsDigits(id.s)))
    ensures id.IntId? ==> k == Some(id.i)
    ensures id.BoolId? ==> k == Some(if id.b then 1 else 0)
    ensures id.FloatId? ==> k == Some(TruncateTowardZero(id.f))
    ensures id.StrId? && IsDigits(id.s) ==> k.value >= 0
  {
    match id
    case IntId(i) => Some(i)
    case BoolId(b) => Some(if b then 1 else 0)
    case FloatId(f) => Some(TruncateTowardZero(f))
    case StrId(s) => if IsDigits(s) then Some(DigitsValue(s)) else None
    case OtherId => None
  }

  /** get_by_id over a table keyed by primary key (query.get returns None for a
      missing key). */
  function GetById<R>(table: map<int, R>, id: RecordId): (r: Option<R>)
    ensures r.Some? <==> LookupKey(id).Some? && LookupKey(id).value in table
    ensures r.Some? ==> r.value == table[LookupKey(id).value]
  {
    match LookupKey(id)
    case None => None
    case Some(k) => if k in table then Some(table[k]) else None
  }

  /** An id given as its decimal text finds the same record as the id itself. */
  lemma GetByDecimalText<R>(table: map<int, R>, n: nat)
    ensures GetById(table, StrId(Decimal(n))) == GetById(table, IntId(n))
  {
    DecimalValue(n);
  }

  /** Leading zeros in the text are ignored, as int() ignores them. */
  lemma GetByPaddedText<R>(table: map<int, R>, n: nat, width: nat)
    ensures GetById(table, StrId(PadZeros(n, width))) == GetById(table, IntId(n))
  {
    var d := Decimal(n);
    DecimalValue(n);
    if |d| < width {
      ZerosPrefixValue(width - |d|, d);
    }
  }

  // ---------------------------------------------------------------------------
  // CRUDMixin.update
  // ---------------------------------------------------------------------------

  /** A model instance seen as its attributes. */
  class Record<V> {
    var attrs: map<string, V>

    constructor (initial: map<string, V>)
      ensures attrs == initial
    {
      attrs := initial;
    }

    /** update(**kwargs): setattr for each keyword argument in turn. */
    method Update(kwargs: map<string, V>)
      modifies this
      ensures attrs.Keys == old(attrs).Keys + kwargs.Keys
      ensures forall a :: a in kwargs ==> attrs[a] == kwargs[a]
      ensures forall a :: a in old(attrs) && a !in kwargs ==> attrs[a] == old(attrs)[a]
    {
      var todo := kwargs.Keys;
      while todo != {}
        invariant todo <= kwargs.Keys
        invariant attrs.Keys == old(attrs).Keys + (kwargs.Keys - todo)
        invariant forall a :: a in kwargs && a !in todo ==> attrs[a] == kwargs[a]
        invariant forall a :: a in old(attrs) && a !in kwargs ==> attrs[a] == old(attrs)[a]
        decreases todo
      {
        var a :| a in todo;
        attrs := attrs[a := kwargs[a]];
        todo := todo - {a};
      }
    }
  }
}
