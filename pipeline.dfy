/**
 * `load_and_process_data` after loading: dog counts per birth year and per
 * (year, name), human counts per year from 1991 on, the inner join on
 * (year, name) restricted to years from 2000 on, the per-name totals and the
 * per-name verdicts.
 */
module Pipeline {
  import opened Wrappers
  import opened GroupBy
  import opened DogNames
  import opened Dogginess

  // ---- Dogs: `dogs_by_year` ----

  /** The group-by key (AnimalBirthYear, dogs_in_year, AnimalName). */
  datatype DogKey = DogKey(year: int, dogsInYear: nat, name: string)

  /** One row of `dogs_by_year`. */
  datatype DogStat = DogStat(year: int, dogsInYear: nat, name: string, dogs: nat)

  /** Number of filtered licences with birth year y: the `len(x)` of that year's group. */
  function DogsInYear(dogs: seq<Licence>, y: int): (count: nat)
  {
    if dogs == [] then 0
    else DogsInYear(dogs[..|dogs| - 1], y) + (if dogs[|dogs| - 1].birthYear == y then 1 else 0)
  }

  /** Number of filtered licences with birth year y and name n. */
  function DogCount(dogs: seq<Licence>, y: int, n: string): (count: nat)
  {
    if dogs == [] then 0
    else DogCount(dogs[..|dogs| - 1], y, n) + (if dogs[|dogs| - 1].birthYear == y && dogs[|dogs| - 1].name == n then 1 else 0)
  }

  /** The licences of `part` after `assign(dogs_in_year=...)`, with the year counts taken over `whole`. */
  function KeyRows(part: seq<Licence>, whole: seq<Licence>): (keyed: seq<Row<DogKey>>)
  {
    if part == [] then []
    else
      var d := part[|part| - 1];
      KeyRows(part[..|part| - 1], whole) + [Row(DogKey(d.birthYear, DogsInYear(whole, d.birthYear), d.name), 0, 0)]
  }

  function StatOf(g: Group<DogKey>): (stat: DogStat)
  {
    DogStat(g.key.year, g.key.dogsInYear, g.key.name, g.size)
  }

  function ToDogStats(gs: seq<Group<DogKey>>): (ds: seq<DogStat>)
    ensures |ds| == |gs| && forall i :: 0 <= i < |gs| ==> ds[i] == StatOf(gs[i])
  {
    if gs == [] then [] else [StatOf(gs[0])] + ToDogStats(gs[1..])
  }

  /** `dogs_by_year`: `.groupby([...]).size()` over the year-annotated licences. */
  function DogsByYear(dogs: seq<Licence>): (stats: seq<DogStat>)
  {
    ToDogStats(Aggregate(KeyRows(dogs, dogs)))
  }

  /** Sum of the `dogs` column over the rows of year y. */
  function SumDogsInYear(ds: seq<DogStat>, y: int): (total: int)
  {
    if ds == [] then 0 else (if ds[0].year == y then ds[0].dogs else 0) + SumDogsInYear(ds[1..], y)
  }

  lemma {:induction false} KeyRowsCount(part: seq<Licence>, whole: seq<Licence>, k: DogKey)
    ensures Count(KeyRows(part, whole), k) ==
      if k.dogsInYear == DogsInYear(whole, k.year) then DogCount(part, k.year, k.name) else 0
  {
    if part != [] {
      KeyRowsCount(part[..|part| - 1], whole, k);
      var rows := KeyRows(part, whole);
      assert rows[..|rows| - 1] == KeyRows(part[..|part| - 1], whole);
    }
  }

  lemma {:induction false} KeyRowsYear(part: seq<Licence>, whole: seq<Licence>, p: DogKey -> bool, y: int)
    requires forall k :: p(k) == (k.year == y)
    ensures RowsWhere(KeyRows(part, whole), p, Size) == DogsInYear(part, y)
  {
    if part != [] {
      KeyRowsYear(part[..|part| - 1], whole, p, y);
      var rows := KeyRows(part, whole);
      assert rows[..|rows| - 1] == KeyRows(part[..|part| - 1], whole);
    }
  }

  lemma {:induction false} StatsYear(gs: seq<Group<DogKey>>, p: DogKey -> bool, y: int)
    requires forall k :: p(k) == (k.year == y)
    ensures SumDogsInYear(ToDogStats(gs), y) == GroupsWhere(gs, p, Size)
  {
    if gs != [] {
      StatsYear(gs[1..], p, y);
      assert ToDogStats(gs)[1..] == ToDogStats(gs[1..]);
    }
  }

  /**
   * `dogs_by_year` holds one row per (year, name) that some filtered licence has,
   * carrying the number of such licences and the number of licences of that year;
   * the per-name counts of a year add up to that year's count.
   */
  lemma DogsByYearCorrect(dogs: seq<Licence>)
    ensures forall i :: 0 <= i < |DogsByYear(dogs)| ==>
      var s := DogsByYear(dogs)[i];
      s.dogsInYear == DogsInYear(dogs, s.year) && s.dogs == DogCount(dogs, s.year, s.name) && s.dogs > 0
    ensures forall i, j :: 0 <= i < j < |DogsByYear(dogs)| ==>
      DogsByYear(dogs)[i].year != DogsByYear(dogs)[j].year || DogsByYear(dogs)[i].name != DogsByYear(dogs)[j].name
    ensures forall y, n :: DogCount(dogs, y, n) > 0 <==>
      exists i :: 0 <= i < |DogsByYear(dogs)| && DogsByYear(dogs)[i].year == y && DogsByYear(dogs)[i].name == n
    ensures forall y :: SumDogsInYear(DogsByYear(dogs), y) == DogsInYear(dogs, y)
  {
    var rows := KeyRows(dogs, dogs);
    var gs := Aggregate(rows);
    var ds := DogsByYear(dogs);
    AggregateCorrect(rows);
    forall i | 0 <= i < |ds|
      ensures ds[i].dogsInYear == DogsInYear(dogs, ds[i].year) && ds[i].dogs == DogCount(dogs, ds[i].year, ds[i].name) && ds[i].dogs > 0
    {
      KeyRowsCount(dogs, dogs, gs[i].key);
    }
    forall y, n ensures DogCount(dogs, y, n) > 0 <==> exists i :: 0 <= i < |ds| && ds[i].year == y && ds[i].name == n {
      var k := DogKey(y, DogsInYear(dogs, y), n);
      KeyRowsCount(dogs, dogs, k);
      if DogCount(dogs, y, n) > 0 {
        var i :| 0 <= i < |gs| && gs[i].key == k;
        assert ds[i].year == y && ds[i].name == n;
      }
    }
    forall y ensures SumDogsInYear(ds, y) == DogsInYear(dogs, y) {
      var p := (k: DogKey) => k.year == y;
      AggregatePartition(rows, p, Size);
      KeyRowsYear(dogs, dogs, p, y);
      StatsYear(gs, p, y);
    }
  }

  // ---- Humans: `human_names` ----

  /** One row of the name registry: V1 state, V2 gender, V3 year, V4 name, V5 count. */
  datatype NameRecord = NameRecord(state: string, gender: string, year: int, name: string, count: int)

  /** One row of `human_names`. */
  datatype HumanStat = HumanStat(year: int, peopleInYear: int, name: string, people: int)

  const FirstHumanYear: int := 1991

  /** `ny_names[ny_names['V3'] >= 1991]`. */
  function Recent(rows: seq<NameRecord>): (kept: seq<NameRecord>)
  {
    if rows == [] then []
    else (if rows[0].year >= FirstHumanYear then [rows[0]] else []) + Recent(rows[1..])
  }

  /** Sum of V5 over the rows of year y. */
  function PeopleInYear(rows: seq<NameRecord>, y: int): (total: int)
  {
    if rows == [] then 0 else (if rows[0].year == y then rows[0].count else 0) + PeopleInYear(rows[1..], y)
  }

  /** `str.upper` on ASCII letters; every other character is kept. */
  function UpperChar(c: char): (u: char)
  {
    if 'a' <= c <= 'z' then (c as int - 32) as char else c
  }

  function Upper(s: string): (u: string)
    ensures |u| == |s|
  {
    seq(|s|, i requires 0 <= i < |s| => UpperChar(s[i]))
  }

  predicate IsLower(c: char)
  {
    'a' <= c <= 'z'
  }

  /** An uppercased name holds no lower-case letter, and uppercasing it again changes nothing. */
  lemma UpperNormal(s: string)
    ensures forall i :: 0 <= i < |Upper(s)| ==> !IsLower(Upper(s)[i])
    ensures Upper(Upper(s)) == Upper(s)
  {
  }

  /** Each row after `assign(...)`: its year's total over `whole`, the upper-cased name and its own V5. */
  function Annotate(part: seq<NameRecord>, whole: seq<NameRecord>): (annotated: seq<HumanStat>)
  {
    seq(|part|, k requires 0 <= k < |part| =>
      HumanStat(part[k].year, PeopleInYear(whole, part[k].year), Upper(part[k].name), part[k].count))
  }

  /** `human_names`: the rows from 1991 on, each annotated with its year's total; rows are not re-summed. */
  function HumanNames(rows: seq<NameRecord>): (hs: seq<HumanStat>)
  {
    Annotate(Recent(rows), Recent(rows))
  }

  /** Sum of the `people` column over the rows of year y. */
  function SumPeopleInYear(hs: seq<HumanStat>, y: int): (total: int)
  {
    if hs == [] then 0 else (if hs[0].year == y then hs[0].people else 0) + SumPeopleInYear(hs[1..], y)
  }

  lemma {:induction false} RecentPeople(rows: seq<NameRecord>, y: int)
    ensures PeopleInYear(Recent(rows), y) == if y >= FirstHumanYear then PeopleInYear(rows, y) else 0
  {
    if rows != [] {
      RecentPeople(rows[1..], y);
      var r := Recent(rows);
      if rows[0].year >= FirstHumanYear {
        assert r[0] == rows[0] && r[1..] == Recent(rows[1..]);
      } else {
        assert r == Recent(rows[1..]);
      }
    }
  }

  lemma {:induction false} RecentMultiplicity(rows: seq<NameRecord>)
    ensures forall r :: multiset(Recent(rows))[r] == if r.year >= FirstHumanYear then multiset(rows)[r] else 0
    ensures forall k :: 0 <= k < |Recent(rows)| ==> Recent(rows)[k].year >= FirstHumanYear
  {
    if rows != [] {
      RecentMultiplicity(rows[1..]);
      assert rows == [rows[0]] + rows[1..];
    }
  }

  lemma {:induction false} AnnotatePeople(part: seq<NameRecord>, whole: seq<NameRecord>, y: int)
    ensures SumPeopleInYear(Annotate(part, whole), y) == PeopleInYear(part, y)
  {
    if part != [] {
      AnnotatePeople(part[1..], whole, y);
      assert Annotate(part, whole)[1..] == Annotate(part[1..], whole);
    }
  }

  /**
   * `human_names` keeps every registry row from 1991 on, exactly as often as
   * it occurs and in order, with its own count as `people`, its name
   * upper-cased and its year's total count; rows before 1991 are dropped.
   */
  lemma HumanNamesCorrect(rows: seq<NameRecord>)
    ensures forall r :: multiset(Recent(rows))[r] == if r.year >= FirstHumanYear then multiset(rows)[r] else 0
    ensures |HumanNames(rows)| == |Recent(rows)|
    ensures forall k :: 0 <= k < |HumanNames(rows)| ==>
      var h, r := HumanNames(rows)[k], Recent(rows)[k];
      h.year == r.year >= FirstHumanYear && h.people == r.count && h.name == Upper(r.name)
      && h.peopleInYear == PeopleInYear(rows, r.year)
  {
    RecentMultiplicity(rows);
    forall k | 0 <= k < |HumanNames(rows)| ensures HumanNames(rows)[k].peopleInYear == PeopleInYear(rows, Recent(rows)[k].year) {
      RecentPeople(rows, Recent(rows)[k].year);
    }
  }

  /** The `people` of a year in `human_names` add up to that year's registry total, from 1991 on, and to zero before. */
  lemma HumanYearTotals(rows: seq<NameRecord>, y: int)
    ensures SumPeopleInYear(HumanNames(rows), y) == if y >= FirstHumanYear then PeopleInYear(rows, y) else 0
  {
    AnnotatePeople(Recent(rows), Recent(rows), y);
    RecentPeople(rows, y);
  }

  // ---- The join: `cross` ----

  /** One row of `cross` (the duplicate key columns AnimalBirthYear and AnimalName are equal to year and name). */
  datatype Joined = Joined(year: int, peopleInYear: int, name: string, people: int, dogsInYear: nat, dogs: nat)

  const FirstJoinedYear: int := 2000

  predicate Matches(h: HumanStat, d: DogStat)
  {
    h.year == d.year && h.name == d.name
  }

  function Combine(h: HumanStat, d: DogStat): (j: Joined)
  {
    Joined(h.year, h.peopleInYear, h.name, h.people, d.dogsInYear, d.dogs)
  }

  /** The joined rows one human row yields: one per matching dog row, in order. */
  function Match(h: HumanStat, ds: seq<DogStat>): (js: seq<Joined>)
  {
    if ds == [] then []
    else (if Matches(h, ds[0]) then [Combine(h, ds[0])] else []) + Match(h, ds[1..])
  }

  /** `pd.merge(human_names, dogs_by_year, ...)`: an inner join, in the order of the left rows. */
  function InnerJoin(hs: seq<HumanStat>, ds: seq<DogStat>): (js: seq<Joined>)
  {
    if hs == [] then [] else Match(hs[0], ds) + InnerJoin(hs[1..], ds)
  }

  /** `cross[cross['year'] >= 2000]`. */
  function Modern(js: seq<Joined>): (kept: seq<Joined>)
  {
    if js == [] then []
    else (if js[0].year >= FirstJoinedYear then [js[0]] else []) + Modern(js[1..])
  }

  function Cross(hs: seq<HumanStat>, ds: seq<DogStat>): (js: seq<Joined>)
  {
    Modern(InnerJoin(hs, ds))
  }

  /** The number of dog rows a human row matches. */
  function MatchCount(h: HumanStat, ds: seq<DogStat>): (count: nat)
  {
    if ds == [] then 0 else (if Matches(h, ds[0]) then 1 else 0) + MatchCount(h, ds[1..])
  }

  /** The number of matching (human row, dog row) pairs. */
  function PairCount(hs: seq<HumanStat>, ds: seq<DogStat>): (count: nat)
  {
    if hs == [] then 0 else MatchCount(hs[0], ds) + PairCount(hs[1..], ds)
  }

  lemma {:induction false} MatchMembers(h: HumanStat, ds: seq<DogStat>, r: Joined)
    ensures |Match(h, ds)| == MatchCount(h, ds)
    ensures r in Match(h, ds) <==> exists j :: 0 <= j < |ds| && Matches(h, ds[j]) && r == Combine(h, ds[j])
  {
    if ds != [] {
      MatchMembers(h, ds[1..], r);
      if exists j :: 0 <= j < |ds| && Matches(h, ds[j]) && r == Combine(h, ds[j]) {
        var j :| 0 <= j < |ds| && Matches(h, ds[j]) && r == Combine(h, ds[j]);
        if j > 0 {
          assert ds[1..][j - 1] == ds[j];
        }
      }
      if r in Match(h, ds[1..]) {
        var j :| 0 <= j < |ds[1..]| && Matches(h, ds[1..][j]) && r == Combine(h, ds[1..][j]);
        assert ds[j + 1] == ds[1..][j];
      }
    }
  }

  lemma {:induction false} InnerJoinMembers(hs: seq<HumanStat>, ds: seq<DogStat>, r: Joined)
    ensures |InnerJoin(hs, ds)| == PairCount(hs, ds)
    ensures r in InnerJoin(hs, ds) <==>
      exists i, j :: 0 <= i < |hs| && 0 <= j < |ds| && Matches(hs[i], ds[j]) && r == Combine(hs[i], ds[j])
  {
    if hs != [] {
      InnerJoinMembers(hs[1..], ds, r);
      MatchMembers(hs[0], ds, r);
      if exists i, j :: 0 <= i < |hs| && 0 <= j < |ds| && Matches(hs[i], ds[j]) && r == Combine(hs[i], ds[j]) {
        var i, j :| 0 <= i < |hs| && 0 <= j < |ds| && Matches(hs[i], ds[j]) && r == Combine(hs[i], ds[j]);
        if i > 0 {
          assert hs[1..][i - 1] == hs[i];
        }
      }
      if r in InnerJoin(hs[1..], ds) {
        var i, j :| 0 <= i < |hs[1..]| && 0 <= j < |ds| && Matches(hs[1..][i], ds[j]) && r == Combine(hs[1..][i], ds[j]);
        assert hs[i + 1] == hs[1..][i];
      }
    }
  }

  lemma {:induction false} ModernMembers(js: seq<Joined>, r: Joined)
    ensures r in Modern(js) <==> r in js && r.year >= FirstJoinedYear
  {
    if js != [] {
      ModernMembers(js[1..], r);
      assert js == [js[0]] + js[1..];
    }
  }

  /**
   * A row is in `cross` iff it is from 2000 on and combines a human row and a
   * dog row with the same (year, name); before the year filter the join has
   * one row per matching pair.
   */
  lemma CrossMembers(hs: seq<HumanStat>, ds: seq<DogStat>)
    ensures |InnerJoin(hs, ds)| == PairCount(hs, ds)
    ensures forall r :: r in Cross(hs, ds) <==>
      (r.year >= FirstJoinedYear &&
       exists i, j :: 0 <= i < |hs| && 0 <= j < |ds| && Matches(hs[i], ds[j]) && r == Combine(hs[i], ds[j]))
  {
    forall r ensures r in Cross(hs, ds) <==>
      (r.year >= FirstJoinedYear &&
       exists i, j :: 0 <= i < |hs| && 0 <= j < |ds| && Matches(hs[i], ds[j]) && r == Combine(hs[i], ds[j]))
    {
      InnerJoinMembers(hs, ds, r);
      ModernMembers(InnerJoin(hs, ds), r);
    }
    var r0 :| true;
    InnerJoinMembers(hs, ds, r0);
  }

  /** The reference join against the raw licences: a human row from 2000 on yields one row when a dog of its year and name survived. */
  function PerHuman(hs: seq<HumanStat>, dogs: seq<Licence>): (js: seq<Joined>)
  {
    if hs == [] then []
    else
      var h := hs[0];
      (if h.year >= FirstJoinedYear && DogCount(dogs, h.year, h.name) > 0
       then [Joined(h.year, h.peopleInYear, h.name, h.people, DogsInYear(dogs, h.year), DogCount(dogs, h.year, h.name))]
       else [])
      + PerHuman(hs[1..], dogs)
  }

  lemma {:induction false} ModernConcat(a: seq<Joined>, b: seq<Joined>)
    ensures Modern(a + b) == Modern(a) + Modern(b)
  {
    if a != [] {
      ModernConcat(a[1..], b);
      assert (a + b)[0] == a[0] && (a + b)[1..] == a[1..] + b;
      var head := if a[0].year >= FirstJoinedYear then [a[0]] else [];
      assert Modern(a + b) == head + (Modern(a[1..]) + Modern(b));
      assert Modern(a) == head + Modern(a[1..]);
    } else {
      assert a + b == b;
    }
  }

  lemma {:induction false} MatchStats(h: HumanStat, gs: seq<Group<DogKey>>, dogs: seq<Licence>)
    requires UniqueKeys(gs)
    requires forall i :: 0 <= i < |gs| ==> gs[i].key.dogsInYear == DogsInYear(dogs, gs[i].key.year)
    ensures Match(h, ToDogStats(gs)) ==
      match Find(gs, DogKey(h.year, DogsInYear(dogs, h.year), h.name))
      case None => []
      case Some(g) => [Combine(h, StatOf(g))]
  {
    if gs != [] {
      var k := DogKey(h.year, DogsInYear(dogs, h.year), h.name);
      MatchStats(h, gs[1..], dogs);
      assert ToDogStats(gs)[1..] == ToDogStats(gs[1..]);
      if gs[0].key == k {
        assert Find(gs[1..], k) == None;
      }
    }
  }

  lemma MatchDogs(h: HumanStat, dogs: seq<Licence>)
    ensures Match(h, DogsByYear(dogs)) ==
      if DogCount(dogs, h.year, h.name) > 0
      then [Joined(h.year, h.peopleInYear, h.name, h.people, DogsInYear(dogs, h.year), DogCount(dogs, h.year, h.name))]
      else []
  {
    var rows := KeyRows(dogs, dogs);
    var gs := Aggregate(rows);
    var k := DogKey(h.year, DogsInYear(dogs, h.year), h.name);
    AggregateFind(rows);
    AggregateCorrect(rows);
    forall i | 0 <= i < |gs| ensures gs[i].key.dogsInYear == DogsInYear(dogs, gs[i].key.year) {
      KeyRowsCount(dogs, dogs, gs[i].key);
    }
    MatchStats(h, gs, dogs);
    KeyRowsCount(dogs, dogs, k);
    assert Find(gs, k) == Expected(rows, k);
  }

  /**
   * Against the pipeline's own dog counts the join and year filter give, for
   * each human row in order, one row when a surviving dog of that year and
   * name exists and none otherwise; so two human rows of one (year, name)
   * both join the same dog row.
   */
  lemma {:induction false} CrossPerHuman(hs: seq<HumanStat>, dogs: seq<Licence>)
    ensures Cross(hs, DogsByYear(dogs)) == PerHuman(hs, dogs)
  {
    if hs != [] {
      CrossPerHuman(hs[1..], dogs);
      MatchDogs(hs[0], dogs);
      ModernConcat(Match(hs[0], DogsByYear(dogs)), InnerJoin(hs[1..], DogsByYear(dogs)));
    }
  }

  // ---- Totals: `check_corr` ----

  /** One row of `check_corr` before the angles. */
  datatype Total = Total(name: string, peopleTot: int, dogsTot: int)

  function TotalRows(js: seq<Joined>): (keyed: seq<Row<string>>)
  {
    if js == [] then [] else TotalRows(js[..|js| - 1]) + [Row(js[|js| - 1].name, js[|js| - 1].people, js[|js| - 1].dogs)]
  }

  function TotalOf(g: Group<string>): (t: Total)
  {
    Total(g.key, g.x, g.y)
  }

  function ToTotals(gs: seq<Group<string>>): (ts: seq<Total>)
    ensures |ts| == |gs| && forall i :: 0 <= i < |gs| ==> ts[i] == TotalOf(gs[i])
  {
    if gs == [] then [] else [TotalOf(gs[0])] + ToTotals(gs[1..])
  }

  /** `cross.groupby('name').agg({'people': 'sum', 'dogs': 'sum'})`. */
  function Totals(js: seq<Joined>): (ts: seq<Total>)
  {
    ToTotals(Aggregate(TotalRows(js)))
  }

  /** Number of joined rows with name n. */
  function NameRows(js: seq<Joined>, n: string): (count: nat)
  {
    if js == [] then 0 else NameRows(js[..|js| - 1], n) + (if js[|js| - 1].name == n then 1 else 0)
  }

  function PeopleOf(js: seq<Joined>, n: string): (total: int)
  {
    if js == [] then 0 else PeopleOf(js[..|js| - 1], n) + (if js[|js| - 1].name == n then js[|js| - 1].people else 0)
  }

  function DogsOf(js: seq<Joined>, n: string): (total: int)
  {
    if js == [] then 0 else DogsOf(js[..|js| - 1], n) + (if js[|js| - 1].name == n then js[|js| - 1].dogs else 0)
  }

  function SumPeople(js: seq<Joined>): (total: int)
  {
    if js == [] then 0 else SumPeople(js[..|js| - 1]) + js[|js| - 1].people
  }

  function SumDogs(js: seq<Joined>): (total: int)
  {
    if js == [] then 0 else SumDogs(js[..|js| - 1]) + js[|js| - 1].dogs
  }

  function SumPeopleTot(ts: seq<Total>): (total: int)
  {
    if ts == [] then 0 else ts[0].peopleTot + SumPeopleTot(ts[1..])
  }

  function SumDogsTot(ts: seq<Total>): (total: int)
  {
    if ts == [] then 0 else ts[0].dogsTot + SumDogsTot(ts[1..])
  }

  lemma {:induction false} TotalRowsByName(js: seq<Joined>, n: string)
    ensures Count(TotalRows(js), n) == NameRows(js, n)
    ensures SumX(TotalRows(js), n) == PeopleOf(js, n) && SumY(TotalRows(js), n) == DogsOf(js, n)
  {
    if js != [] {
      TotalRowsByName(js[..|js| - 1], n);
      var rows := TotalRows(js);
      assert rows[..|rows| - 1] == TotalRows(js[..|js| - 1]);
    }
  }

  lemma {:induction false} TotalRowsAll(js: seq<Joined>, p: string -> bool)
    requires forall n :: p(n)
    ensures RowsWhere(TotalRows(js), p, X) == SumPeople(js) && RowsWhere(TotalRows(js), p, Y) == SumDogs(js)
  {
    if js != [] {
      TotalRowsAll(js[..|js| - 1], p);
      var rows := TotalRows(js);
      assert rows[..|rows| - 1] == TotalRows(js[..|js| - 1]);
    }
  }

  lemma {:induction false} ToTotalsAll(gs: seq<Group<string>>, p: string -> bool)
    requires forall n :: p(n)
    ensures SumPeopleTot(ToTotals(gs)) == GroupsWhere(gs, p, X) && SumDogsTot(ToTotals(gs)) == GroupsWhere(gs, p, Y)
  {
    if gs != [] {
      ToTotalsAll(gs[1..], p);
      assert ToTotals(gs)[1..] == ToTotals(gs[1..]);
    }
  }

  /** Some totals row has name n. */
  predicate HasTotal(ts: seq<Total>, n: string)
  {
    exists i :: 0 <= i < |ts| && ts[i].name == n
  }

  /**
   * `check_corr` has exactly one row per distinct joined name, whose totals
   * are the sums of `people` and `dogs` over that name's joined rows; the
   * grand totals are those of the joined rows.
   */
  lemma TotalsCorrect(js: seq<Joined>)
    ensures forall i, j :: 0 <= i < j < |Totals(js)| ==> Totals(js)[i].name != Totals(js)[j].name
    ensures forall n :: NameRows(js, n) > 0 <==> HasTotal(Totals(js), n)
    ensures forall i :: 0 <= i < |Totals(js)| ==>
      Totals(js)[i].peopleTot == PeopleOf(js, Totals(js)[i].name) && Totals(js)[i].dogsTot == DogsOf(js, Totals(js)[i].name)
    ensures SumPeopleTot(Totals(js)) == SumPeople(js) && SumDogsTot(Totals(js)) == SumDogs(js)
  {
    var rows := TotalRows(js);
    var gs := Aggregate(rows);
    var ts := Totals(js);
    AggregateCorrect(rows);
    forall n ensures NameRows(js, n) > 0 <==> HasTotal(ts, n) {
      TotalRowsByName(js, n);
      if NameRows(js, n) > 0 {
        var i :| 0 <= i < |gs| && gs[i].key == n;
        assert ts[i].name == n;
      }
    }
    forall i | 0 <= i < |ts| ensures ts[i].peopleTot == PeopleOf(js, ts[i].name) && ts[i].dogsTot == DogsOf(js, ts[i].name) {
      TotalRowsByName(js, gs[i].key);
    }
    var all := (n: string) => true;
    AggregatePartition(rows, all, X);
    AggregatePartition(rows, all, Y);
    TotalRowsAll(js, all);
    ToTotalsAll(gs, all);
  }

  // ---- Verdicts ----

  /** One row of the final `check_corr`. */
  datatype Verdict = Verdict(
    name: string, peopleTot: int, dogsTot: int,
    dogAngleTot: int, dogAngleProp: int,
    dogginessTot: string, dogginessProp: string, angleDiff: nat)

  /**
   * The classification columns of `check_corr`. The two angles of a name,
   * computed in floating point, are given by `angles`.
   */
  function CheckCorr(ts: seq<Total>, angles: Total -> (int, int)): (vs: seq<Verdict>)
    ensures |vs| == |ts|
    ensures forall i :: 0 <= i < |ts| ==>
      vs[i].name == ts[i].name && vs[i].peopleTot == ts[i].peopleTot && vs[i].dogsTot == ts[i].dogsTot
      && vs[i].dogAngleTot == angles(ts[i]).0 && vs[i].dogAngleProp == angles(ts[i]).1
      && vs[i].dogginessTot == ClassifyDogginessTot(vs[i].dogAngleTot)
      && vs[i].dogginessProp == ClassifyDogginessProp(vs[i].dogAngleProp)
      && vs[i].angleDiff == AngleDiff(vs[i].dogAngleTot, vs[i].dogAngleProp)
  {
    seq(|ts|, i requires 0 <= i < |ts| =>
      var (tot, prop) := angles(ts[i]);
      Verdict(ts[i].name, ts[i].peopleTot, ts[i].dogsTot, tot, prop,
              ClassifyDogginessTot(tot), ClassifyDogginessProp(prop), AngleDiff(tot, prop)))
  }

  /** The whole of `load_and_process_data`, from the two loaded tables. */
  function LoadAndProcess(licences: seq<LicenceRow>, names: seq<NameRecord>, angles: Total -> (int, int)): (vs: seq<Verdict>)
  {
    CheckCorr(Totals(Cross(HumanNames(names), DogsByYear(FilterDogs(licences)))), angles)
  }

  // ---- What the dataset contains ----

  lemma {:induction false} NameRowsPositive(js: seq<Joined>, n: string)
    ensures NameRows(js, n) > 0 <==> exists i :: 0 <= i < |js| && js[i].name == n
  {
    if js != [] {
      NameRowsPositive(js[..|js| - 1], n);
      if exists i :: 0 <= i < |js| && js[i].name == n {
        var i :| 0 <= i < |js| && js[i].name == n;
        if i < |js| - 1 {
          assert js[..|js| - 1][i] == js[i];
        }
      }
    }
  }

  /** Some joined row has name n. */
  predicate HasName(js: seq<Joined>, n: string)
  {
    exists i :: 0 <= i < |js| && js[i].name == n
  }

  /** Some human row from 2000 on has name n and a surviving dog of its year has that name. */
  predicate Joinable(hs: seq<HumanStat>, dogs: seq<Licence>, n: string)
  {
    exists k :: 0 <= k < |hs| && hs[k].year >= FirstJoinedYear && hs[k].name == n && DogCount(dogs, hs[k].year, n) > 0
  }

  /** Some verdict has name n. */
  predicate HasVerdict(vs: seq<Verdict>, n: string)
  {
    exists i :: 0 <= i < |vs| && vs[i].name == n
  }

  lemma HasNameConcat(a: seq<Joined>, b: seq<Joined>, n: string)
    ensures HasName(a + b, n) <==> HasName(a, n) || HasName(b, n)
  {
    if HasName(a, n) {
      var i :| 0 <= i < |a| && a[i].name == n;
      assert (a + b)[i] == a[i];
    }
    if HasName(b, n) {
      var i :| 0 <= i < |b| && b[i].name == n;
      assert (a + b)[|a| + i] == b[i];
    }
    if HasName(a + b, n) {
      var i :| 0 <= i < |a + b| && (a + b)[i].name == n;
      if i >= |a| {
        assert b[i - |a|] == (a + b)[i];
      } else {
        assert a[i] == (a + b)[i];
      }
    }
  }

  lemma JoinableSplit(hs: seq<HumanStat>, dogs: seq<Licence>, n: string)
    requires hs != []
    ensures Joinable(hs, dogs, n) <==>
      (hs[0].year >= FirstJoinedYear && hs[0].name == n && DogCount(dogs, hs[0].year, n) > 0) || Joinable(hs[1..], dogs, n)
  {
    if Joinable(hs, dogs, n) {
      var k :| 0 <= k < |hs| && hs[k].year >= FirstJoinedYear && hs[k].name == n && DogCount(dogs, hs[k].year, n) > 0;
      if k > 0 {
        assert hs[1..][k - 1] == hs[k];
      }
    }
    if Joinable(hs[1..], dogs, n) {
      var k :| 0 <= k < |hs[1..]| && hs[1..][k].year >= FirstJoinedYear && hs[1..][k].name == n && DogCount(dogs, hs[1..][k].year, n) > 0;
      assert hs[k + 1] == hs[1..][k];
    }
  }

  lemma {:induction false} PerHumanNames(hs: seq<HumanStat>, dogs: seq<Licence>, n: string)
    ensures HasName(PerHuman(hs, dogs), n) <==> Joinable(hs, dogs, n)
  {
    if hs != [] {
      PerHumanNames(hs[1..], dogs, n);
      JoinableSplit(hs, dogs, n);
      var h := hs[0];
      var head := if h.year >= FirstJoinedYear && DogCount(dogs, h.year, h.name) > 0
        then [Joined(h.year, h.peopleInYear, h.name, h.people, DogsInYear(dogs, h.year), DogCount(dogs, h.year, h.name))]
        else [];
      assert PerHuman(hs, dogs) == head + PerHuman(hs[1..], dogs);
      HasNameConcat(head, PerHuman(hs[1..], dogs), n);
      if head != [] && head[0].name == n {
        assert HasName(head, n);
      }
      assert HasName(head, n) ==> head[0].name == n;
    }
  }

  lemma CheckCorrNames(ts: seq<Total>, angles: Total -> (int, int))
    requires forall i, j :: 0 <= i < j < |ts| ==> ts[i].name != ts[j].name
    ensures forall i, j :: 0 <= i < j < |CheckCorr(ts, angles)| ==> CheckCorr(ts, angles)[i].name != CheckCorr(ts, angles)[j].name
    ensures forall n :: HasVerdict(CheckCorr(ts, angles), n) <==> HasTotal(ts, n)
  {
    var vs := CheckCorr(ts, angles);
    forall n ensures HasVerdict(vs, n) <==> HasTotal(ts, n) {
      if HasVerdict(vs, n) {
        var i :| 0 <= i < |vs| && vs[i].name == n;
        assert ts[i].name == n;
      }
      if HasTotal(ts, n) {
        var i :| 0 <= i < |ts| && ts[i].name == n;
        assert vs[i].name == n;
      }
    }
  }

  lemma CrossNames(hs: seq<HumanStat>, dogs: seq<Licence>, n: string)
    ensures NameRows(Cross(hs, DogsByYear(dogs)), n) > 0 <==> Joinable(hs, dogs, n)
  {
    CrossPerHuman(hs, dogs);
    NameRowsPositive(PerHuman(hs, dogs), n);
    PerHumanNames(hs, dogs, n);
  }

  /**
   * The dataset the quiz samples from has one verdict per name, and a name is
   * in it iff some `human_names` row from 2000 on has it and some licence of
   * that birth year with exactly that name survived the filter.
   */
  lemma LoadAndProcessNames(licences: seq<LicenceRow>, names: seq<NameRecord>, angles: Total -> (int, int))
    ensures forall i, j :: 0 <= i < j < |LoadAndProcess(licences, names, angles)| ==>
      LoadAndProcess(licences, names, angles)[i].name != LoadAndProcess(licences, names, angles)[j].name
    ensures forall n :: HasVerdict(LoadAndProcess(licences, names, angles), n) <==> Joinable(HumanNames(names), FilterDogs(licences), n)
  {
    var hs, dogs := HumanNames(names), FilterDogs(licences);
    var js := Cross(hs, DogsByYear(dogs));
    TotalsCorrect(js);
    CheckCorrNames(Totals(js), angles);
    forall n ensures HasVerdict(LoadAndProcess(licences, names, angles), n) <==> Joinable(hs, dogs, n) {
      CrossNames(hs, dogs, n);
    }
  }

  /** Joined names are upper-cased human names, so a dog name with a lower-case letter never joins. */
  lemma LowercaseNeverJoins(names: seq<NameRecord>, ds: seq<DogStat>, j: nat, c: nat)
    requires j < |ds| && c < |ds[j].name| && IsLower(ds[j].name[c])
    ensures forall r :: r in Cross(HumanNames(names), ds) ==> r.name != ds[j].name
  {
    var hs := HumanNames(names);
    forall r | r in Cross(hs, ds) ensures r.name != ds[j].name {
      InnerJoinMembers(hs, ds, r);
      ModernMembers(InnerJoin(hs, ds), r);
      var i, j' :| 0 <= i < |hs| && 0 <= j' < |ds| && Matches(hs[i], ds[j']) && r == Combine(hs[i], ds[j']);
      var src := Recent(names)[i];
      assert r.name == Upper(src.name);
      if c < |r.name| {
        UpperNormal(src.name);
        assert !IsLower(r.name[c]);
      }
    }
  }

  lemma UpperExample()
    ensures Upper("Max") == "MAX" && Upper("MAX") == "MAX"
  {
    assert Upper("Max")[1] == 'A' && Upper("Max")[2] == 'X';
  }

  lemma HumanNamesExample()
    ensures HumanNames([NameRecord("NY", "F", 2005, "Max", 3), NameRecord("NY", "M", 2005, "MAX", 7)])
            == [HumanStat(2005, 10, "MAX", 3), HumanStat(2005, 10, "MAX", 7)]
  {
    var names := [NameRecord("NY", "F", 2005, "Max", 3), NameRecord("NY", "M", 2005, "MAX", 7)];
    assert Recent(names[1..]) == names[1..];
    assert Recent(names) == names;
    assert PeopleInYear(names, 2005) == 10;
    UpperExample();
  }

  lemma TotalsExample()
    ensures Totals([Joined(2005, 10, "MAX", 3, 1, 1), Joined(2005, 10, "MAX", 7, 1, 1)]) == [Total("MAX", 10, 2)]
  {
    var js := [Joined(2005, 10, "MAX", 3, 1, 1), Joined(2005, 10, "MAX", 7, 1, 1)];
    var rows := [Row("MAX", 3, 1), Row("MAX", 7, 1)];
    assert js[..1] == [js[0]];
    assert TotalRows(js) == rows;
    assert rows[..1] == [Row("MAX", 3, 1)];
    assert Aggregate(rows[..1]) == [Group("MAX", 1, 3, 1)];
    assert Aggregate(rows) == [Group("MAX", 2, 10, 2)];
  }

  /**
   * Human rows are not re-summed per (year, name): a name registered once per
   * gender in a year joins the one dog of that year twice, so its `dogs_tot`
   * is 2 while a single licence exists.
   */
  lemma DogCountedPerHumanRow()
    ensures Totals(Cross(HumanNames([NameRecord("NY", "F", 2005, "Max", 3), NameRecord("NY", "M", 2005, "MAX", 7)]),
                         DogsByYear([Licence(2005, "MAX")])))
            == [Total("MAX", 10, 2)]
  {
    var dogs := [Licence(2005, "MAX")];
    var hs := [HumanStat(2005, 10, "MAX", 3), HumanStat(2005, 10, "MAX", 7)];
    HumanNamesExample();
    CrossPerHuman(hs, dogs);
    assert DogCount(dogs, 2005, "MAX") == 1 && DogsInYear(dogs, 2005) == 1;
    assert PerHuman(hs[1..], dogs) == [Joined(2005, 10, "MAX", 7, 1, 1)];
    assert PerHuman(hs, dogs) == [Joined(2005, 10, "MAX", 3, 1, 1), Joined(2005, 10, "MAX", 7, 1, 1)];
    TotalsExample();
  }
}
