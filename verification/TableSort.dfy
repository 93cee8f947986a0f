/** Ordering the rows a table already holds: `sortRows`. */
module TableSort {
  import opened Options
  import opened Seqs
  import opened Sorting
  import opened Text

  datatype SortValue = Words(s: string) | Number(n: real) | NotANumber | Flag(b: bool) | Missing

  datatype SortType = TextColumn | NumberColumn | DateColumn

  datatype Direction = Ascending | Descending

  /** The comparable form of a value, or blank. */
  datatype Comparable = Blank | Num(n: real) | Str(s: string)

  /** What the platform supplies: two partial parsers, a collator, and how a number prints. */
  datatype Platform = Platform(
    parseNumber: string -> Option<real>,
    parseDate: string -> Option<real>,
    collate: (string, string) -> real,
    show: real -> string)

  datatype Item<T> = Item(row: T, index: nat, value: Comparable)

  function WithoutCommas(s: string): string {
    if |s| == 0 then "" else (if s[0] == ',' then "" else [s[0]]) + WithoutCommas(s[1..])
  }

  function OrBlank(n: Option<real>): Comparable {
    match n
    case None => Blank
    case Some(x) => Num(x)
  }

  function ComparableOf(v: SortValue, kind: SortType, p: Platform): Comparable {
    match v
    case Missing => Blank
    case Flag(b) => Num(if b then 1.0 else 0.0)
    case NotANumber => Blank
    case Number(n) => Num(n)
    case Words(s) =>
      var text := Trim(s);
      if text == "" || text == "\U{2014}" then Blank
      else
        match kind
        case NumberColumn => OrBlank(p.parseNumber(WithoutCommas(text)))
        case DateColumn => OrBlank(p.parseDate(text))
        case TextColumn => Str(text)
  }

  function AsText(c: Comparable, p: Platform): string
    requires !c.Blank?
  {
    if c.Num? then p.show(c.n) else c.s
  }

  /** Ascending comparison of two values that are not blank. */
  function Compare(a: Comparable, b: Comparable, p: Platform): real
    requires !a.Blank? && !b.Blank?
  {
    if a.Num? && b.Num? then a.n - b.n else p.collate(AsText(a, p), AsText(b, p))
  }

  /** The comparator `sortRows` hands to the sort. */
  function Comparator<T>(a: Item<T>, b: Item<T>, d: Direction, p: Platform): real {
    if a.value.Blank? || b.value.Blank? then
      if a.value.Blank? && b.value.Blank? then a.index as real - b.index as real
      else if a.value.Blank? then 1.0 else -1.0
    else
      var c := Compare(a.value, b.value, p);
      if c != 0.0 then (if d.Ascending? then c else 0.0 - c) else a.index as real - b.index as real
  }

  function Before<T>(d: Direction, p: Platform): (Item<T>, Item<T>) -> bool {
    (a: Item<T>, b: Item<T>) => Comparator(a, b, d, p) < 0.0
  }

  function Items<T>(rows: seq<T>, valueOf: T -> SortValue, kind: SortType, p: Platform): (items: seq<Item<T>>)
    ensures |items| == |rows|
    ensures forall i :: 0 <= i < |rows| ==> items[i] == Item(rows[i], i, ComparableOf(valueOf(rows[i]), kind, p))
  {
    seq(|rows|, i requires 0 <= i < |rows| => Item(rows[i], i, ComparableOf(valueOf(rows[i]), kind, p)))
  }

  function RowOf<T>(): Item<T> -> T {
    (x: Item<T>) => x.row
  }

  function SortedItems<T>(rows: seq<T>, valueOf: T -> SortValue, kind: SortType, d: Direction, p: Platform)
    : seq<Item<T>>
  {
    SortBy(Before(d, p), Items(rows, valueOf, kind, p))
  }

  function SortRows<T>(rows: seq<T>, valueOf: T -> SortValue, kind: SortType, d: Direction, p: Platform): seq<T> {
    Map(RowOf(), SortedItems(rows, valueOf, kind, d, p))
  }

  // ------------------------------------------------------------------------ total order

  /** The collator is a total preorder. */
  ghost predicate CollatorOk(p: Platform) {
    && (forall a, b :: p.collate(a, b) < 0.0 <==> p.collate(b, a) > 0.0)
    && (forall a, b, c :: p.collate(a, b) <= 0.0 && p.collate(b, c) <= 0.0 ==> p.collate(a, c) <= 0.0)
  }

  /** No column mixes numbers and text, blanks aside. */
  ghost predicate Homogeneous<T>(items: seq<Item<T>>) {
    || (forall x :: x in items ==> !x.value.Str?)
    || (forall x :: x in items ==> !x.value.Num?)
  }

  /** Number and date columns never mix, whatever they hold. */
  lemma NumberColumnsHomogeneous<T>(rows: seq<T>, valueOf: T -> SortValue, kind: SortType, p: Platform)
    requires kind != TextColumn
    ensures Homogeneous(Items(rows, valueOf, kind, p))
  {
    forall x | x in Items(rows, valueOf, kind, p) ensures !x.value.Str? {
      var i :| 0 <= i < |rows| && Items(rows, valueOf, kind, p)[i] == x;
      assert !ComparableOf(valueOf(rows[i]), kind, p).Str?;
    }
  }

  lemma CompareAntisymmetric(a: Comparable, b: Comparable, p: Platform)
    requires CollatorOk(p) && !a.Blank? && !b.Blank?
    ensures Compare(a, b, p) < 0.0 <==> Compare(b, a, p) > 0.0
    ensures Compare(a, b, p) == 0.0 <==> Compare(b, a, p) == 0.0
  {
    if a.Num? && b.Num? {
    } else {
      var s, t := AsText(a, p), AsText(b, p);
      assert p.collate(s, t) < 0.0 <==> p.collate(t, s) > 0.0;
      assert p.collate(t, s) < 0.0 <==> p.collate(s, t) > 0.0;
    }
  }

  /** Two numbers and a word: the three pairs are not all compared the same way. */
  predicate Mixed(a: Comparable, b: Comparable, c: Comparable) {
    || (a.Num? && b.Num? && c.Str?) || (a.Num? && b.Str? && c.Num?) || (a.Str? && b.Num? && c.Num?)
  }

  lemma CompareTransitive(a: Comparable, b: Comparable, c: Comparable, p: Platform)
    requires CollatorOk(p) && !a.Blank? && !b.Blank? && !c.Blank? && !Mixed(a, b, c)
    requires Compare(a, b, p) <= 0.0 && Compare(b, c, p) <= 0.0
    ensures Compare(a, c, p) <= 0.0
    ensures Compare(a, c, p) == 0.0 ==> Compare(a, b, p) == 0.0 && Compare(b, c, p) == 0.0
  {
    CompareAntisymmetric(a, b, p);
    CompareAntisymmetric(b, c, p);
    CompareAntisymmetric(a, c, p);
    if a.Num? && b.Num? && c.Num? {
    } else {
      var s, t, u := AsText(a, p), AsText(b, p), AsText(c, p);
      assert p.collate(s, t) <= 0.0 && p.collate(t, u) <= 0.0 ==> p.collate(s, u) <= 0.0;
      assert p.collate(u, s) <= 0.0 && p.collate(s, t) <= 0.0 ==> p.collate(u, t) <= 0.0;
      assert p.collate(t, u) <= 0.0 && p.collate(u, s) <= 0.0 ==> p.collate(t, s) <= 0.0;
    }
  }

  lemma BeforeAsymmetric<T>(a: Item<T>, b: Item<T>, d: Direction, p: Platform)
    requires CollatorOk(p)
    ensures !(Comparator(a, b, d, p) < 0.0 && Comparator(b, a, d, p) < 0.0)
    ensures a.index != b.index ==> Comparator(a, b, d, p) < 0.0 || Comparator(b, a, d, p) < 0.0
  {
    if !a.value.Blank? && !b.value.Blank? {
      CompareAntisymmetric(a.value, b.value, p);
    }
  }

  lemma BeforeNegTransitive<T>(a: Item<T>, b: Item<T>, c: Item<T>, d: Direction, p: Platform)
    requires CollatorOk(p) && !Mixed(a.value, b.value, c.value)
    requires Comparator(a, c, d, p) < 0.0
    requires Comparator(a, b, d, p) >= 0.0
    ensures Comparator(b, c, d, p) < 0.0
  {
    if !a.value.Blank? && !b.value.Blank? && !c.value.Blank? {
      CompareAntisymmetric(a.value, b.value, p);
      CompareAntisymmetric(b.value, c.value, p);
      CompareAntisymmetric(a.value, c.value, p);
      if d.Ascending? {
        if Compare(b.value, c.value, p) >= 0.0 {
          CompareTransitive(c.value, b.value, a.value, p);
        }
      } else {
        if Compare(b.value, c.value, p) <= 0.0 {
          CompareTransitive(a.value, b.value, c.value, p);
        }
      }
    }
  }

  /** `m` goes before `n` as numbers, and the word `w` goes after `n` and before `m` as text. */
  predicate IsCircle<T>(m: Item<T>, n: Item<T>, w: Item<T>, d: Direction, p: Platform) {
    && m.value.Num? && n.value.Num? && w.value.Str?
    && Comparator(m, n, d, p) < 0.0 && Comparator(n, w, d, p) < 0.0 && Comparator(w, m, d, p) < 0.0
  }

  /** Some word of a mixed text column contradicts the order of two of its numbers. */
  ghost predicate HasCircle<T>(items: seq<Item<T>>, d: Direction, p: Platform) {
    exists m, n, w :: m in items && n in items && w in items && IsCircle(m, n, w, d, p)
  }

  /** A column that does not mix numbers with words has no circle. */
  lemma HomogeneousHasNoCircle<T>(items: seq<Item<T>>, d: Direction, p: Platform)
    requires Homogeneous(items)
    ensures !HasCircle(items, d, p)
  {
  }

  /** Three rows that go round go round through two numbers and a word. */
  lemma RoundIsCircle<T>(items: seq<Item<T>>, a: Item<T>, b: Item<T>, c: Item<T>, d: Direction, p: Platform)
    requires CollatorOk(p) && a in items && b in items && c in items
    requires Comparator(a, b, d, p) < 0.0 && Comparator(b, c, d, p) < 0.0 && Comparator(c, a, d, p) < 0.0
    ensures HasCircle(items, d, p)
  {
    if Mixed(a.value, b.value, c.value) {
      assert IsCircle(a, b, c, d, p) || IsCircle(b, c, a, d, p) || IsCircle(c, a, b, d, p);
    } else {
      BeforeAsymmetric(a, c, d, p);
      BeforeAsymmetric(b, c, d, p);
      BeforeNegTransitive(a, c, b, d, p);
    }
  }

  /** Two different items of a table stand at different indexes. */
  lemma ItemsIndexed<T>(rows: seq<T>, valueOf: T -> SortValue, kind: SortType, p: Platform, a: Item<T>, b: Item<T>)
    requires a in Items(rows, valueOf, kind, p) && b in Items(rows, valueOf, kind, p) && a != b
    ensures a.index != b.index
  {
    var items := Items(rows, valueOf, kind, p);
    var i :| 0 <= i < |items| && items[i] == a;
    var j :| 0 <= j < |items| && items[j] == b;
  }

  /**
   * The comparator is a strict total order on the indexed rows exactly when no word contradicts the
   * order of two numbers; so always in a number or date column, and in a text column of one kind.
   */
  lemma ComparatorIsTotalIff<T(!new)>(rows: seq<T>, valueOf: T -> SortValue, kind: SortType, d: Direction, p: Platform)
    requires CollatorOk(p)
    ensures TotalOrder(Before(d, p), Members(Items(rows, valueOf, kind, p)))
            <==> !HasCircle(Items(rows, valueOf, kind, p), d, p)
  {
    var items := Items(rows, valueOf, kind, p);
    if HasCircle(items, d, p) {
      CircleIsNoOrder(items, d, p);
    } else {
      ComparatorIsTotal(rows, valueOf, kind, d, p);
    }
  }

  lemma CircleIsNoOrder<T(!new)>(items: seq<Item<T>>, d: Direction, p: Platform)
    requires HasCircle(items, d, p)
    ensures !WeakOrder(Before(d, p), Members(items))
  {
    var m, n, w :| m in items && n in items && w in items && IsCircle(m, n, w, d, p);
    var less := Before(d, p);
    assert less(m, n) && less(n, w) && less(w, m);
    assert m in Members(items) && n in Members(items) && w in Members(items);
    assert WeakOrder(less, Members(items)) ==> less(m, w) || less(w, n);
  }

  lemma ComparatorIsTotal<T(!new)>(rows: seq<T>, valueOf: T -> SortValue, kind: SortType, d: Direction, p: Platform)
    requires CollatorOk(p) && !HasCircle(Items(rows, valueOf, kind, p), d, p)
    ensures TotalOrder(Before(d, p), Members(Items(rows, valueOf, kind, p)))
  {
    var items := Items(rows, valueOf, kind, p);
    var dom := Members(items);
    forall a, b | a in dom && b in dom && Before(d, p)(a, b) ensures !Before(d, p)(b, a) {
      BeforeAsymmetric(a, b, d, p);
    }
    forall a, b | a in dom && b in dom && a != b ensures Before(d, p)(a, b) || Before(d, p)(b, a) {
      ItemsIndexed(rows, valueOf, kind, p, a, b);
      BeforeAsymmetric(a, b, d, p);
    }
    forall a, b, c | a in dom && b in dom && c in dom && Before(d, p)(a, c)
      ensures Before(d, p)(a, b) || Before(d, p)(b, c)
    {
      if !Before(d, p)(a, b) && !Before(d, p)(b, c) {
        RoundIsCircle(items, a, c, b, d, p);
      }
    }
  }

  // ----------------------------------------------------------------------- main results

  /** What the order of the result says of two rows, the earlier one first. */
  predicate InOrder<T>(a: Item<T>, b: Item<T>, d: Direction, p: Platform) {
    if a.value.Blank? || b.value.Blank? then
      b.value.Blank? && (a.value.Blank? ==> a.index < b.index)
    else
      var c := Compare(a.value, b.value, p);
      if c == 0.0 then a.index < b.index
      else if d.Ascending? then c < 0.0 else c > 0.0
  }

  /** Every row is in order with every later one. */
  ghost predicate AllInOrder<T>(s: seq<Item<T>>, d: Direction, p: Platform) {
    forall i, j :: 0 <= i < j < |s| ==> InOrder(s[i], s[j], d, p)
  }

  lemma InOrderExcludes<T>(a: Item<T>, b: Item<T>, d: Direction, p: Platform)
    requires CollatorOk(p) && InOrder(a, b, d, p)
    ensures !InOrder(b, a, d, p) && !(Comparator(b, a, d, p) < 0.0)
  {
    if !a.value.Blank? && !b.value.Blank? {
      CompareAntisymmetric(a.value, b.value, p);
    }
  }

  lemma BeforeIsInOrder<T>(a: Item<T>, b: Item<T>, d: Direction, p: Platform)
    requires Comparator(a, b, d, p) < 0.0
    ensures InOrder(a, b, d, p)
  {
  }

  /** Rows that go round cannot be put in order at all. */
  lemma OrderHasNoCircle<T>(s: seq<Item<T>>, d: Direction, p: Platform)
    requires CollatorOk(p) && AllInOrder(s, d, p)
    ensures !HasCircle(s, d, p)
  {
    forall m, n, w | m in s && n in s && w in s ensures !IsCircle(m, n, w, d, p) {
      if IsCircle(m, n, w, d, p) {
        var i :| 0 <= i < |s| && s[i] == m;
        var j :| 0 <= j < |s| && s[j] == n;
        var k :| 0 <= k < |s| && s[k] == w;
        NotAfter(s, i, j, d, p);
        NotAfter(s, j, k, d, p);
        NotAfter(s, k, i, d, p);
      }
    }
  }

  lemma NotAfter<T>(s: seq<Item<T>>, i: nat, j: nat, d: Direction, p: Platform)
    requires CollatorOk(p) && AllInOrder(s, d, p) && i < |s| && j < |s| && Comparator(s[i], s[j], d, p) < 0.0
    ensures i <= j
  {
    if j < i {
      InOrderExcludes(s[j], s[i], d, p);
    }
  }

  /**
   * The result is a permutation of the rows. Blanks come last whichever way the column is ordered,
   * values go in the asked-for direction and ties keep their input order, exactly when no word
   * contradicts the order of two numbers.
   */
  lemma SortRowsOrdersIff<T(!new)>(rows: seq<T>, valueOf: T -> SortValue, kind: SortType, d: Direction, p: Platform)
    requires CollatorOk(p)
    ensures multiset(SortedItems(rows, valueOf, kind, d, p)) == multiset(Items(rows, valueOf, kind, p))
    ensures AllInOrder(SortedItems(rows, valueOf, kind, d, p), d, p)
            <==> !HasCircle(Items(rows, valueOf, kind, p), d, p)
  {
    var items := Items(rows, valueOf, kind, p);
    var s := SortedItems(rows, valueOf, kind, d, p);
    SortPermutes(Before(d, p), items);
    SortMembers(Before(d, p), items);
    if AllInOrder(s, d, p) {
      OrderHasNoCircle(s, d, p);
    }
    if !HasCircle(items, d, p) {
      ComparatorIsTotal(rows, valueOf, kind, d, p);
      SortSorts(Before(d, p), items, Members(items));
      SortDistinct(Before(d, p), items);
      forall i, j | 0 <= i < j < |s| ensures InOrder(s[i], s[j], d, p) {
        assert s[i] in s && s[j] in s && s[i] != s[j];
        assert s[i] in Members(items) && s[j] in Members(items);
        assert !Before(d, p)(s[j], s[i]);
        BeforeIsInOrder(s[i], s[j], d, p);
      }
    }
  }

  /** The rows returned are those of the sorted items, each the input row at the item's index. */
  lemma SortedRows<T(!new)>(rows: seq<T>, valueOf: T -> SortValue, kind: SortType, d: Direction, p: Platform)
    ensures |SortRows(rows, valueOf, kind, d, p)| == |rows| == |SortedItems(rows, valueOf, kind, d, p)|
    ensures forall i :: 0 <= i < |rows| ==>
              var x := SortedItems(rows, valueOf, kind, d, p)[i];
              x.index < |rows| && SortRows(rows, valueOf, kind, d, p)[i] == rows[x.index]
  {
    var s := SortedItems(rows, valueOf, kind, d, p);
    SortMembers(Before(d, p), Items(rows, valueOf, kind, p));
    forall i | 0 <= i < |rows| ensures s[i].index < |rows| && s[i].row == rows[s[i].index] {
      assert s[i] in s;
    }
  }

  /** No other arrangement of the rows is in order, so the answer does not depend on the sort. */
  lemma SortRowsIsUnique<T(!new)>(
    rows: seq<T>, valueOf: T -> SortValue, kind: SortType, d: Direction, p: Platform, other: seq<Item<T>>)
    requires CollatorOk(p)
    requires multiset(other) == multiset(Items(rows, valueOf, kind, p)) && AllInOrder(other, d, p)
    ensures other == SortedItems(rows, valueOf, kind, d, p)
  {
    var items := Items(rows, valueOf, kind, p);
    PermutationMembers(other, items);
    OrderHasNoCircle(other, d, p);
    ComparatorIsTotal(rows, valueOf, kind, d, p);
    SortPermutes(Before(d, p), items);
    SortSorts(Before(d, p), items, Members(items));
    forall i, j | 0 <= i < j < |other| ensures !Before(d, p)(other[j], other[i]) {
      InOrderExcludes(other[i], other[j], d, p);
    }
    SortedUnique(Before(d, p), other, SortedItems(rows, valueOf, kind, d, p), Members(items));
  }

  /** `a` comes before `b` in a sequence. */
  ghost predicate Precedes<T>(s: seq<Item<T>>, a: Item<T>, b: Item<T>) {
    exists i, j :: 0 <= i < j < |s| && s[i] == a && s[j] == b
  }

  lemma PrecedesIff<T(!new)>(
    rows: seq<T>, valueOf: T -> SortValue, kind: SortType, d: Direction, p: Platform, a: Item<T>, b: Item<T>)
    requires CollatorOk(p) && !HasCircle(Items(rows, valueOf, kind, p), d, p)
    requires a in Items(rows, valueOf, kind, p) && b in Items(rows, valueOf, kind, p) && a != b
    ensures Precedes(SortedItems(rows, valueOf, kind, d, p), a, b) <==> InOrder(a, b, d, p)
  {
    var s := SortedItems(rows, valueOf, kind, d, p);
    SortRowsOrdersIff(rows, valueOf, kind, d, p);
    SortMembers(Before(d, p), Items(rows, valueOf, kind, p));
    var i :| 0 <= i < |s| && s[i] == a;
    var j :| 0 <= j < |s| && s[j] == b;
    if i < j {
      assert InOrder(s[i], s[j], d, p);
    } else {
      assert InOrder(s[j], s[i], d, p);
      InOrderExcludes(b, a, d, p);
    }
    if Precedes(s, a, b) {
      var k, l :| 0 <= k < l < |s| && s[k] == a && s[l] == b;
      assert InOrder(s[k], s[l], d, p);
    }
  }

  /**
   * Descending reverses only the order of distinct values: two rows swap places between the two
   * directions exactly when neither is blank and their values differ.
   */
  lemma DirectionSwapsOnlyDistinctValues<T(!new)>(
    rows: seq<T>, valueOf: T -> SortValue, kind: SortType, p: Platform, a: Item<T>, b: Item<T>)
    requires CollatorOk(p) && forall d :: !HasCircle(Items(rows, valueOf, kind, p), d, p)
    requires a in Items(rows, valueOf, kind, p) && b in Items(rows, valueOf, kind, p) && a != b
    ensures var up := SortedItems(rows, valueOf, kind, Ascending, p);
            var down := SortedItems(rows, valueOf, kind, Descending, p);
            var swap := !a.value.Blank? && !b.value.Blank? && Compare(a.value, b.value, p) != 0.0;
            Precedes(up, a, b) <==> if swap then Precedes(down, b, a) else Precedes(down, a, b)
  {
    PrecedesIff(rows, valueOf, kind, Ascending, p, a, b);
    PrecedesIff(rows, valueOf, kind, Descending, p, a, b);
    PrecedesIff(rows, valueOf, kind, Descending, p, b, a);
    if !a.value.Blank? && !b.value.Blank? {
      CompareAntisymmetric(a.value, b.value, p);
    }
  }

  /**
   * A text column that does go round: the word "9" beside the numbers 9 and 10, with a collator
   * that puts "10" before "9". No arrangement of its rows is in order.
   */
  lemma MixedColumnCycles(p: Platform, other: seq<Item<SortValue>>)
    requires CollatorOk(p) && p.show(9.0) == "9" && p.show(10.0) == "10"
    requires p.collate("10", "9") < 0.0 && p.collate("9", "9") == 0.0
    requires multiset(other) == multiset(Items([Words("9"), Number(9.0), Number(10.0)], v => v, TextColumn, p))
    ensures !AllInOrder(other, Ascending, p)
  {
    var items := Items([Words("9"), Number(9.0), Number(10.0)], v => v, TextColumn, p);
    assert Trim("9") == "9";
    assert items[0] in items && items[1] in items && items[2] in items;
    assert IsCircle(items[1], items[2], items[0], Ascending, p);
    PermutationMembers(other, items);
    if AllInOrder(other, Ascending, p) {
      OrderHasNoCircle(other, Ascending, p);
    }
  }

  // ---------------------------------------------------------------------- what is compared

  /**
   * What a cell is compared as. A number is itself and a flag is one or zero in any column; what is
   * missing, not a number, blank or a dash is blank; and words are read as the column says.
   */
  lemma ComparedAs(v: SortValue, kind: SortType, p: Platform)
    ensures v == Missing || v == NotANumber ==> ComparableOf(v, kind, p) == Blank
    ensures forall n :: v == Number(n) ==> ComparableOf(v, kind, p) == Num(n)
    ensures v == Flag(true) ==> ComparableOf(v, kind, p) == Num(1.0)
    ensures v == Flag(false) ==> ComparableOf(v, kind, p) == Num(0.0)
    ensures forall s :: v == Words(s) && (Trim(s) == "" || Trim(s) == "\U{2014}") ==> ComparableOf(v, kind, p) == Blank
  {
  }

  /** Words in a text column stay words; elsewhere they are a number, a date, or blank. */
  lemma WordsComparedAs(s: string, p: Platform)
    requires Trim(s) != "" && Trim(s) != "\U{2014}"
    ensures ComparableOf(Words(s), TextColumn, p) == Str(Trim(s))
    ensures match p.parseDate(Trim(s))
            case None => ComparableOf(Words(s), DateColumn, p) == Blank
            case Some(n) => ComparableOf(Words(s), DateColumn, p) == Num(n)
    ensures match p.parseNumber(WithoutCommas(Trim(s)))
            case None => ComparableOf(Words(s), NumberColumn, p) == Blank
            case Some(n) => ComparableOf(Words(s), NumberColumn, p) == Num(n)
  {
  }

  predicate NotComma(c: char) {
    c != ','
  }

  /** Every comma is left out, and nothing else. */
  lemma {:induction false} CommasGo(s: string)
    ensures WithoutCommas(s) == Filter(NotComma, s)
  {
    if |s| == 0 {
    } else {
      CommasGo(s[1..]);
    }
  }

  /**
   * What being in order means of two values: smaller numbers first when ascending and larger first
   * when descending, words and mixed values as the collator has them, and equal ones by index.
   */
  lemma InOrderReads<T>(a: Item<T>, b: Item<T>, p: Platform)
    requires !a.value.Blank? && !b.value.Blank?
    ensures a.value.Num? && b.value.Num? ==>
              && (InOrder(a, b, Ascending, p)
                  <==> a.value.n < b.value.n || (a.value.n == b.value.n && a.index < b.index))
              && (InOrder(a, b, Descending, p)
                  <==> a.value.n > b.value.n || (a.value.n == b.value.n && a.index < b.index))
    ensures a.value.Str? || b.value.Str? ==>
              var s := if a.value.Num? then p.show(a.value.n) else a.value.s;
              var t := if b.value.Num? then p.show(b.value.n) else b.value.s;
              && (InOrder(a, b, Ascending, p)
                  <==> p.collate(s, t) < 0.0 || (p.collate(s, t) == 0.0 && a.index < b.index))
              && (InOrder(a, b, Descending, p)
                  <==> p.collate(s, t) > 0.0 || (p.collate(s, t) == 0.0 && a.index < b.index))
  {
  }
}
