/** Comparison of nftables listings (scripts/portable_frontend_runtime.py, normalize, canonical_rules
    and the check in ingress). The comparison is Python's, for which True equals 1 and False equals 0. */
module RuleListing {
  import opened Wrappers
  import opened CanonicalJson

  /** One element of an nft JSON listing. */
  type Entry = map<Text, Json>

  const HANDLE: Text := Codes("handle")
  const METAINFO: Text := Codes("metainfo")
  const KINDS: seq<Text> := [Codes("table"), Codes("chain"), Codes("rule")]

  function Normalize(v: Json): Json {
    match v
    case Object(m) => Object(map k | k in m && k != HANDLE :: Normalize(m[k]))
    case Array(items) => Array(seq(|items|, i requires 0 <= i < |items| => Normalize(items[i])))
    case _ => v
  }

  function NormalizeEntry(e: Entry): (n: Entry) { Normalize(Object(e)).members }

  function NormalizeAll(es: seq<Entry>): (r: seq<Entry>)
    ensures |r| == |es| && forall i | 0 <= i < |es| :: r[i] == NormalizeEntry(es[i])
  {
    seq(|es|, i requires 0 <= i < |es| => NormalizeEntry(es[i]))
  }

  // ----- Sort keys -----

  datatype Key = Key(rank: nat, family: Text, table: Text, chain: Text)

  /** A table, a chain or a rule: one member of one of the three kinds that holds an object. */
  predicate Declares(e: Entry, kind: nat) {
    kind < 3 && KINDS[kind] in e && |e| == 1 && e[KINDS[kind]].Object?
  }

  function Lookup(m: map<Text, Json>, name: Text, default: Json): Json {
    if name in m then m[name] else default
  }

  function Family(m: map<Text, Json>): Json { Lookup(m, Codes("family"), String([])) }
  function Name(m: map<Text, Json>): Json { Lookup(m, Codes("name"), String([])) }
  function Table(m: map<Text, Json>): Json { Lookup(m, Codes("table"), Name(m)) }
  function Chain(m: map<Text, Json>): Json { Lookup(m, Codes("chain"), Name(m)) }

  /** The names that a key is made of are strings, so that keys can be compared. */
  predicate Sortable(e: Entry) {
    forall kind | 0 <= kind < 3 && Declares(e, kind) ::
      var m := e[KINDS[kind]].members;
      Family(m).String? && Table(m).String? && Chain(m).String?
  }

  function DeclaredKey(e: Entry, kind: nat): Key
    requires Declares(e, kind) && Sortable(e)
  {
    var m := e[KINDS[kind]].members;
    Key(kind, Family(m).text, Table(m).text, Chain(m).text)
  }

  ghost function KeyOf(e: Entry): Key
    requires Sortable(e)
  {
    if Declares(e, 0) then DeclaredKey(e, 0)
    else if Declares(e, 1) then DeclaredKey(e, 1)
    else if Declares(e, 2) then DeclaredKey(e, 2)
    else Key(3, Codes(Dump(Object(e), " ")), [], [])
  }

  predicate KeyBefore(a: Key, b: Key) {
    || a.rank < b.rank
    || (a.rank == b.rank
        && (|| Before(a.family, b.family)
            || (a.family == b.family
                && (|| Before(a.table, b.table)
                    || (a.table == b.table && Before(a.chain, b.chain))))))
  }

  lemma KeyOrder(a: Key, b: Key)
    ensures KeyBefore(a, b) || a == b || KeyBefore(b, a)
    ensures KeyBefore(a, b) ==> a != b && !KeyBefore(b, a)
  {
    BeforeTotal(a.family, b.family);
    BeforeTotal(a.table, b.table);
    BeforeTotal(a.chain, b.chain);
  }

  lemma KeyTransitive(a: Key, b: Key, c: Key)
    requires KeyBefore(a, b) && KeyBefore(b, c)
    ensures KeyBefore(a, c)
  {
    if Before(a.family, b.family) && Before(b.family, c.family) { BeforeTransitive(a.family, b.family, c.family); }
    if Before(a.table, b.table) && Before(b.table, c.table) { BeforeTransitive(a.table, b.table, c.table); }
    if Before(a.chain, b.chain) && Before(b.chain, c.chain) { BeforeTransitive(a.chain, b.chain, c.chain); }
  }

  // ----- Stable sorting -----

  /** An entry beside the key that it is sorted by. */
  datatype Keyed = Keyed(key: Key, entry: Entry)

  /** `e` ahead of everything that it does not have to follow. */
  function Insert(e: Keyed, es: seq<Keyed>): (r: seq<Keyed>)
    ensures multiset(r) == multiset([e] + es)
  {
    if es == [] || !KeyBefore(es[0].key, e.key) then [e] + es
    else
      assert es == [es[0]] + es[1..];
      [es[0]] + Insert(e, es[1..])
  }

  function Sort(es: seq<Keyed>): (r: seq<Keyed>)
    ensures multiset(r) == multiset(es)
  {
    if es == [] then []
    else
      assert es == [es[0]] + es[1..];
      Insert(es[0], Sort(es[1..]))
  }

  /** The entries with one key, in order. */
  function Group(es: seq<Keyed>, k: Key): (r: seq<Keyed>)
    ensures forall e | e in r :: e in es && e.key == k
  {
    if es == [] then [] else (if es[0].key == k then [es[0]] else []) + Group(es[1..], k)
  }

  predicate Ordered(es: seq<Keyed>) {
    forall i, j | 0 <= i < j < |es| :: !KeyBefore(es[j].key, es[i].key)
  }

  lemma OrderedHead(e: Keyed, es: seq<Keyed>)
    requires Ordered(es) && forall x | x in es :: !KeyBefore(x.key, e.key)
    ensures Ordered([e] + es)
  {
  }

  lemma NotBeforeTransitive(a: Key, b: Key, c: Key)
    requires !KeyBefore(b, a) && !KeyBefore(c, b)
    ensures !KeyBefore(c, a)
  {
    hide KeyBefore;
    KeyOrder(a, b);
    KeyOrder(b, c);
    KeyOrder(a, c);
    if KeyBefore(c, a) && KeyBefore(a, b) { KeyTransitive(c, a, b); }
  }

  lemma {:induction false} InsertOrdered(e: Keyed, es: seq<Keyed>)
    requires Ordered(es)
    ensures Ordered(Insert(e, es))
  {
    hide KeyBefore;
    if es == [] {
    } else if !KeyBefore(es[0].key, e.key) {
      forall x | x in es ensures !KeyBefore(x.key, e.key) {
        NotBeforeTransitive(e.key, es[0].key, x.key) by {
          var i :| 0 <= i < |es| && es[i] == x;
          KeyOrder(es[0].key, es[0].key);
        }
      }
      OrderedHead(e, es);
    } else {
      var more := Insert(e, es[1..]);
      InsertOrdered(e, es[1..]);
      KeyOrder(es[0].key, e.key);
      forall x | x in more ensures !KeyBefore(x.key, es[0].key) {
        assert x in multiset(more);
        assert x == e || x in es[1..];
      }
      OrderedHead(es[0], more);
    }
  }

  lemma GroupStep(e: Keyed, es: seq<Keyed>, k: Key)
    ensures Group([e] + es, k) == (if e.key == k then [e] else []) + Group(es, k)
  {
    assert ([e] + es)[1..] == es;
  }

  lemma {:induction false} InsertGroups(e: Keyed, es: seq<Keyed>, k: Key)
    ensures Group(Insert(e, es), k) == Group([e] + es, k)
  {
    hide KeyBefore, Group;
    if es != [] && KeyBefore(es[0].key, e.key) {
      var more := es[1..];
      assert es == [es[0]] + more;
      KeyOrder(es[0].key, e.key);
      InsertGroups(e, more, k);
      GroupStep(es[0], Insert(e, more), k);
      GroupStep(es[0], more, k);
      GroupStep(e, more, k);
      GroupStep(e, es, k);
    }
  }

  lemma {:induction false} SortIsStable(es: seq<Keyed>, k: Key)
    ensures Ordered(Sort(es)) && Group(Sort(es), k) == Group(es, k)
  {
    hide Insert, KeyBefore;
    if es != [] {
      SortIsStable(es[1..], k);
      InsertOrdered(es[0], Sort(es[1..]));
      InsertGroups(es[0], Sort(es[1..]), k);
      GroupStep(es[0], Sort(es[1..]), k);
    }
  }

  lemma {:induction false} GroupHas(es: seq<Keyed>, e: Keyed)
    requires e in es
    ensures e in Group(es, e.key)
  {
    if es[0] != e { GroupHas(es[1..], e); }
  }

  lemma HeadIsLeast(es: seq<Keyed>, x: Keyed)
    requires Ordered(es) && x in es
    ensures es[0].key == x.key || KeyBefore(es[0].key, x.key)
  {
    hide KeyBefore;
    KeyOrder(es[0].key, x.key);
    var i :| 0 <= i < |es| && es[i] == x;
  }

  /** Key by key, the same entries in the same order. */
  ghost predicate SameGroups(a: seq<Keyed>, b: seq<Keyed>) {
    forall k :: Group(a, k) == Group(b, k)
  }

  lemma SameHead(a: seq<Keyed>, b: seq<Keyed>)
    requires Ordered(a) && Ordered(b) && SameGroups(a, b) && a != []
    ensures b != [] && a[0] == b[0]
  {
    hide KeyBefore, Group;
    GroupHas(a, a[0]);
    assert a[0] in Group(b, a[0].key);
    GroupHas(b, b[0]);
    assert b[0] in Group(a, b[0].key);
    HeadIsLeast(b, a[0]);
    HeadIsLeast(a, b[0]);
    KeyOrder(a[0].key, b[0].key);
    assert a == [a[0]] + a[1..] && b == [b[0]] + b[1..];
    GroupStep(a[0], a[1..], a[0].key);
    GroupStep(b[0], b[1..], a[0].key);
    assert Group(a, a[0].key)[0] == a[0] && Group(b, a[0].key)[0] == b[0];
  }

  lemma SameTail(x: Keyed, a: seq<Keyed>, b: seq<Keyed>)
    requires SameGroups([x] + a, [x] + b)
    ensures SameGroups(a, b)
  {
    hide Group;
    forall k ensures Group(a, k) == Group(b, k) {
      GroupStep(x, a, k);
      GroupStep(x, b, k);
      var h := if x.key == k then [x] else [];
      assert (h + Group(a, k))[|h|..] == Group(a, k);
      assert (h + Group(b, k))[|h|..] == Group(b, k);
    }
  }

  /** Two ordered lists with the same groups are the same list. */
  lemma {:induction false} GroupsDetermine(a: seq<Keyed>, b: seq<Keyed>)
    requires Ordered(a) && Ordered(b) && SameGroups(a, b)
    ensures a == b
  {
    hide KeyBefore, SameGroups;
    if a != [] {
      SameHead(a, b);
      assert a == [a[0]] + a[1..] && b == [a[0]] + b[1..];
      SameTail(a[0], a[1..], b[1..]);
      GroupsDetermine(a[1..], b[1..]);
    } else if b != [] {
      SameHead(b, a) by { assert SameGroups(b, a) by { Swapped(a, b); } }
    }
  }

  lemma Swapped(a: seq<Keyed>, b: seq<Keyed>)
    requires SameGroups(a, b)
    ensures SameGroups(b, a)
  {
    hide Group;
  }

  // ----- Python's equality -----

  function AsInteger(j: Json): Option<int> {
    match j
    case Number(n) => Some(n)
    case Bool(b) => Some(if b then 1 else 0)
    case _ => None
  }

  /** The equality that Python applies to values from json.loads. */
  predicate PyEqual(a: Json, b: Json) {
    match a
    case Object(m) => b.Object? && m.Keys == b.members.Keys && forall k | k in m :: PyEqual(m[k], b.members[k])
    case Array(s) => b.Array? && |s| == |b.items| && forall i | 0 <= i < |s| :: PyEqual(s[i], b.items[i])
    case String(s) => b == a
    case Null => b.Null?
    case _ => AsInteger(a) == AsInteger(b)
  }

  /** Booleans written as integers, at every depth. */
  function Untyped(j: Json): Json {
    match j
    case Object(m) => Object(map k | k in m :: Untyped(m[k]))
    case Array(items) => Array(seq(|items|, i requires 0 <= i < |items| => Untyped(items[i])))
    case Bool(b) => Number(if b then 1 else 0)
    case _ => j
  }

  lemma {:induction false} PyEqualUntyped(a: Json, b: Json)
    ensures PyEqual(a, b) <==> Untyped(a) == Untyped(b)
    decreases a
  {
    match a
    case Object(m) =>
      if b.Object? {
        var n := b.members;
        forall k | k in m && k in n ensures PyEqual(m[k], n[k]) <==> Untyped(m[k]) == Untyped(n[k]) {
          PyEqualUntyped(m[k], n[k]);
        }
        var x, y := Untyped(a).members, Untyped(b).members;
        assert x.Keys == m.Keys && y.Keys == n.Keys;
        if Untyped(a) == Untyped(b) {
          forall k | k in m ensures PyEqual(m[k], n[k]) { assert k in y.Keys && x[k] == y[k]; }
        }
      }
    case Array(s) =>
      if b.Array? && |s| == |b.items| {
        var t := b.items;
        forall i | 0 <= i < |s| ensures PyEqual(s[i], t[i]) <==> Untyped(s[i]) == Untyped(t[i]) {
          PyEqualUntyped(s[i], t[i]);
        }
        var x, y := Untyped(a).items, Untyped(b).items;
        if Untyped(a) == Untyped(b) {
          forall i | 0 <= i < |s| ensures PyEqual(s[i], t[i]) { assert x[i] == y[i]; }
        }
      } else if b.Array? {
        assert |Untyped(a).items| == |s| && |Untyped(b).items| == |b.items|;
      }
    case _ =>
  }

  predicate SameEntry(x: Entry, y: Entry) { PyEqual(Object(x), Object(y)) }

  function UntypedEntry(e: Entry): Entry { Untyped(Object(e)).members }

  lemma SameEntryUntyped(x: Entry, y: Entry)
    ensures SameEntry(x, y) <==> UntypedEntry(x) == UntypedEntry(y)
  {
    PyEqualUntyped(Object(x), Object(y));
  }

  /** Python's equality of two lists of entries. */
  predicate SameEntries(a: seq<Entry>, b: seq<Entry>) {
    |a| == |b| && forall i | 0 <= i < |a| :: SameEntry(a[i], b[i])
  }

  lemma SameLookup(m: map<Text, Json>, n: map<Text, Json>, name: Text, d: Json, e: Json)
    requires PyEqual(Object(m), Object(n)) && PyEqual(d, e)
    ensures PyEqual(Lookup(m, name, d), Lookup(n, name, e))
  {
  }

  lemma SameDeclaration(x: Entry, y: Entry, kind: nat)
    requires SameEntry(x, y) && Declares(x, kind)
    ensures Declares(y, kind) && PyEqual(x[KINDS[kind]], y[KINDS[kind]])
  {
    var name := KINDS[kind];
    assert |x| == |x.Keys| && |y| == |y.Keys|;
    assert name in x && PyEqual(x[name], y[name]);
  }

  /** Equal tables, chains and rules have one key. */
  lemma SameKey(x: Entry, y: Entry)
    requires Sortable(x) && Sortable(y) && SameEntry(x, y)
    ensures KeyOf(x).rank == KeyOf(y).rank && (KeyOf(x).rank < 3 ==> KeyOf(x) == KeyOf(y))
  {
    hide Lookup, Dump;
    forall kind | 0 <= kind < 3 && Declares(x, kind)
      ensures Declares(y, kind) && DeclaredKey(x, kind) == DeclaredKey(y, kind)
    {
      SameDeclaration(x, y, kind);
      var m, n := x[KINDS[kind]].members, y[KINDS[kind]].members;
      SameLookup(m, n, Codes("family"), String([]), String([]));
      SameLookup(m, n, Codes("name"), String([]), String([]));
      SameLookup(m, n, Codes("table"), Name(m), Name(n));
      SameLookup(m, n, Codes("chain"), Name(m), Name(n));
    }
    PyEqualSymmetric(Object(x), Object(y));
    forall kind | 0 <= kind < 3 && Declares(y, kind) ensures Declares(x, kind) { SameDeclaration(y, x, kind); }
  }

  lemma PyEqualSymmetric(a: Json, b: Json)
    requires PyEqual(a, b)
    ensures PyEqual(b, a)
  {
    PyEqualUntyped(a, b);
    PyEqualUntyped(b, a);
  }

  // ----- Listings -----

  predicate AllSortable(es: seq<Entry>) { forall i | 0 <= i < |es| :: Sortable(NormalizeEntry(es[i])) }

  ghost function KeyedEntry(e: Entry): Keyed
    requires Sortable(NormalizeEntry(e))
  {
    Keyed(KeyOf(NormalizeEntry(e)), NormalizeEntry(e))
  }

  /** The normalized entries beside their keys. */
  ghost function Listing(es: seq<Entry>): (r: seq<Keyed>)
    requires AllSortable(es)
    ensures |r| == |es| && forall i | 0 <= i < |es| :: r[i] == KeyedEntry(es[i])
  {
    seq(|es|, i requires 0 <= i < |es| => KeyedEntry(es[i]))
  }

  function Entries(es: seq<Keyed>): (r: seq<Entry>)
    ensures |r| == |es| && forall i | 0 <= i < |es| :: r[i] == es[i].entry
  {
    seq(|es|, i requires 0 <= i < |es| => es[i].entry)
  }

  ghost function CanonicalRules(es: seq<Entry>): seq<Entry>
    requires AllSortable(es)
  {
    Entries(Sort(Listing(es)))
  }

  ghost predicate Genuine(es: seq<Keyed>) {
    forall x | x in es :: Sortable(x.entry) && x.key == KeyOf(x.entry)
  }

  lemma SortedGenuine(es: seq<Entry>)
    requires AllSortable(es)
    ensures Genuine(Listing(es)) && Genuine(Sort(Listing(es)))
  {
    hide Sort, KeyOf, Sortable, NormalizeEntry;
    forall x | x in Sort(Listing(es)) ensures x in Listing(es) { assert x in multiset(Sort(Listing(es))); }
  }

  /** Two lists of keyed entries compare equal. */
  predicate SameKeyed(a: seq<Keyed>, b: seq<Keyed>) {
    |a| == |b| && forall i | 0 <= i < |a| :: SameEntry(a[i].entry, b[i].entry)
  }

  // ----- Changing entries under their keys -----

  function Strip(es: seq<Keyed>, f: Entry -> Entry): (r: seq<Keyed>)
    ensures |r| == |es| && forall i | 0 <= i < |es| :: r[i] == Keyed(es[i].key, f(es[i].entry))
  {
    seq(|es|, i requires 0 <= i < |es| => Keyed(es[i].key, f(es[i].entry)))
  }

  lemma StripCons(e: Keyed, es: seq<Keyed>, f: Entry -> Entry)
    ensures Strip([e] + es, f) == [Keyed(e.key, f(e.entry))] + Strip(es, f)
  {
  }

  lemma {:induction false} StripGroup(es: seq<Keyed>, f: Entry -> Entry, k: Key)
    ensures Group(Strip(es, f), k) == Strip(Group(es, k), f)
  {
    if es == [] {
      assert Strip(es, f) == [];
    } else {
      hide Strip, Group;
      var e, more := es[0], es[1..];
      assert es == [e] + more;
      StripGroup(more, f, k);
      StripCons(e, more, f);
      StripCons(e, Group(more, k), f);
      GroupStep(e, more, k);
      GroupStep(Keyed(e.key, f(e.entry)), Strip(more, f), k);
    }
  }

  lemma StripSorted(a: seq<Keyed>, b: seq<Keyed>, f: Entry -> Entry)
    requires Strip(a, f) == Strip(b, f)
    ensures Strip(Sort(a), f) == Strip(Sort(b), f)
  {
    hide Sort, Group, KeyBefore;
    forall k
      ensures Ordered(Sort(a)) && Ordered(Sort(b)) && Group(Strip(Sort(a), f), k) == Group(Strip(Sort(b), f), k)
    {
      SortIsStable(a, k);
      SortIsStable(b, k);
      StripGroup(Sort(a), f, k);
      StripGroup(Sort(b), f, k);
      StripGroup(a, f, k);
      StripGroup(b, f, k);
    }
    SortIsStable(a, Key(0, [], [], []));
    SortIsStable(b, Key(0, [], [], []));
    assert SameGroups(Strip(Sort(a), f), Strip(Sort(b), f));
    GroupsDetermine(Strip(Sort(a), f), Strip(Sort(b), f));
  }

  /** With equal keys, comparing equal and agreeing after stripping the types are the same. */
  lemma SameKeyedStripped(a: seq<Keyed>, b: seq<Keyed>)
    requires |a| == |b| && forall i | 0 <= i < |a| :: a[i].key == b[i].key
    ensures SameKeyed(a, b) <==> Strip(a, UntypedEntry) == Strip(b, UntypedEntry)
  {
    hide UntypedEntry, SameEntry;
    forall i | 0 <= i < |a| ensures SameEntry(a[i].entry, b[i].entry) <==> UntypedEntry(a[i].entry) == UntypedEntry(b[i].entry) {
      SameEntryUntyped(a[i].entry, b[i].entry);
    }
    if Strip(a, UntypedEntry) == Strip(b, UntypedEntry) {
      forall i | 0 <= i < |a| ensures UntypedEntry(a[i].entry) == UntypedEntry(b[i].entry) {
        assert Strip(a, UntypedEntry)[i] == Strip(b, UntypedEntry)[i];
      }
    }
  }

  lemma StrippedSame(a: seq<Keyed>, b: seq<Keyed>)
    requires Strip(a, UntypedEntry) == Strip(b, UntypedEntry)
    ensures SameKeyed(a, b)
  {
    hide UntypedEntry, SameKeyed;
    assert |Strip(a, UntypedEntry)| == |a| && |Strip(b, UntypedEntry)| == |b|;
    forall i | 0 <= i < |a| ensures a[i].key == b[i].key {
      assert Strip(a, UntypedEntry)[i].key == Strip(b, UntypedEntry)[i].key;
    }
    SameKeyedStripped(a, b);
  }

  // ----- Declarations and rules, and the rest -----

  /** The entries that are tables, chains or rules, or those that are not, in order. */
  function Part(es: seq<Keyed>, rest: bool): (r: seq<Keyed>)
    ensures forall x | x in r :: x in es && (x.key.rank >= 3) == rest
  {
    if es == [] then []
    else (if (es[0].key.rank >= 3) == rest then [es[0]] else []) + Part(es[1..], rest)
  }

  lemma {:induction false} PartGroup(es: seq<Keyed>, rest: bool, k: Key)
    ensures Group(Part(es, rest), k) == if (k.rank >= 3) == rest then Group(es, k) else []
  {
    if es != [] {
      PartGroup(es[1..], rest, k);
      GroupStep(es[0], Part(es[1..], rest), k);
      assert [] + Part(es[1..], rest) == Part(es[1..], rest);
      assert [] + Group(es[1..], k) == Group(es[1..], k);
    }
  }

  lemma {:induction false} NoneOf(es: seq<Keyed>, rest: bool)
    requires forall x | x in es :: (x.key.rank >= 3) != rest
    ensures Part(es, rest) == []
  {
    if es != [] {
      assert es[0] in es && forall x | x in es[1..] :: x in es;
      NoneOf(es[1..], rest);
    }
  }

  lemma {:induction false} AllOf(es: seq<Keyed>, rest: bool)
    requires forall x | x in es :: (x.key.rank >= 3) == rest
    ensures Part(es, rest) == es
  {
    if es != [] {
      assert es[0] in es && forall x | x in es[1..] :: x in es;
      AllOf(es[1..], rest);
    }
  }

  lemma PartStep(es: seq<Keyed>, rest: bool)
    requires es != []
    ensures Part(es, rest) == if (es[0].key.rank >= 3) == rest then [es[0]] + Part(es[1..], rest) else Part(es[1..], rest)
  {
  }

  lemma {:induction false} OrderedParts(es: seq<Keyed>)
    requires Ordered(es)
    ensures es == Part(es, false) + Part(es, true) && Ordered(Part(es, false)) && Ordered(Part(es, true))
  {
    hide KeyBefore, Part;
    if es == [] {
      NoneOf(es, false);
      NoneOf(es, true);
    } else if es[0].key.rank >= 3 {
      forall x | x in es ensures x.key.rank >= 3 { RankRises(es, x); }
      NoneOf(es, false);
      AllOf(es, true);
    } else {
      var more := Part(es[1..], false);
      OrderedParts(es[1..]);
      PartStep(es, false);
      PartStep(es, true);
      HeadOfPart(es, more);
      assert es == [es[0]] + es[1..];
      hide Ordered;
      assert [es[0]] + more + Part(es[1..], true) == [es[0]] + (more + Part(es[1..], true));
    }
  }

  lemma HeadOfPart(es: seq<Keyed>, more: seq<Keyed>)
    requires es != [] && Ordered(es) && Ordered(more) && forall x | x in more :: x in es
    ensures Ordered([es[0]] + more)
  {
    hide KeyBefore;
    forall x | x in more ensures !KeyBefore(x.key, es[0].key) {
      HeadIsLeast(es, x);
      KeyOrder(es[0].key, x.key);
    }
    OrderedHead(es[0], more);
  }

  lemma RankRises(es: seq<Keyed>, x: Keyed)
    requires Ordered(es) && x in es
    ensures es[0].key.rank <= x.key.rank
  {
    HeadIsLeast(es, x);
  }

  lemma PartsOf(es: seq<Entry>)
    requires AllSortable(es)
    ensures var s := Sort(Listing(es));
            && s == Part(s, false) + Part(s, true) && Ordered(Part(s, false))
            && Part(s, true) == Sort(Part(Listing(es), true))
            && Genuine(Part(s, false)) && Genuine(Part(s, true))
  {
    hide Sort, Group, KeyBefore, KeyOf, Sortable, Part;
    var l := Listing(es);
    var s := Sort(l);
    SortedGenuine(es);
    forall k ensures Ordered(s) && Ordered(Sort(Part(l, true))) && Group(Part(s, true), k) == Group(Sort(Part(l, true)), k) {
      SortIsStable(l, k);
      SortIsStable(Part(l, true), k);
      PartGroup(s, true, k);
      PartGroup(l, true, k);
    }
    SortIsStable(l, Key(0, [], [], []));
    SortIsStable(Part(l, true), Key(0, [], [], []));
    OrderedParts(s);
    GroupsDetermine(Part(s, true), Sort(Part(l, true)));
  }

  /** Every table, chain and rule key has equal groups. */
  ghost predicate SameDeclared(a: seq<Keyed>, b: seq<Keyed>) {
    forall k: Key | k.rank < 3 :: SameKeyed(Group(a, k), Group(b, k))
  }

  ghost predicate SameInGroups(a: seq<Keyed>, b: seq<Keyed>) {
    forall k :: SameKeyed(Group(a, k), Group(b, k))
  }

  lemma SameKeys(a: seq<Keyed>, b: seq<Keyed>)
    requires Genuine(a) && Genuine(b) && SameKeyed(a, b)
    ensures forall i | 0 <= i < |a| :: a[i].key.rank == b[i].key.rank && (a[i].key.rank < 3 ==> a[i].key == b[i].key)
  {
    hide KeyOf, Sortable, SameEntry;
    forall i | 0 <= i < |a|
      ensures a[i].key.rank == b[i].key.rank && (a[i].key.rank < 3 ==> a[i].key == b[i].key)
    {
      assert a[i] in a && b[i] in b;
      SameKey(a[i].entry, b[i].entry);
    }
  }

  lemma Boundary(x: seq<Keyed>, y: seq<Keyed>)
    requires (forall e | e in x :: e.key.rank < 3) && forall e | e in y :: e.key.rank >= 3
    ensures forall i | 0 <= i < |x + y| :: (x + y)[i].key.rank < 3 <==> i < |x|
  {
    forall i | 0 <= i < |x + y| ensures (x + y)[i].key.rank < 3 <==> i < |x| {
      assert if i < |x| then (x + y)[i] in x else (x + y)[i] in y;
    }
  }

  /** Lists that compare equal split into declarations and others at the same place. */
  lemma SplitTogether(x: seq<Keyed>, y: seq<Keyed>, x': seq<Keyed>, y': seq<Keyed>)
    requires Genuine(x) && Genuine(y) && Genuine(x') && Genuine(y')
    requires (forall e | e in x :: e.key.rank < 3) && forall e | e in x' :: e.key.rank < 3
    requires (forall e | e in y :: e.key.rank >= 3) && forall e | e in y' :: e.key.rank >= 3
    ensures SameKeyed(x + y, x' + y') <==> SameKeyed(x, x') && SameKeyed(y, y')
  {
    hide KeyOf, Sortable, SameEntry;
    var a, b := x + y, x' + y';
    if SameKeyed(a, b) {
      forall e | e in a ensures Sortable(e.entry) && e.key == KeyOf(e.entry) { assert e in x || e in y; }
      forall e | e in b ensures Sortable(e.entry) && e.key == KeyOf(e.entry) { assert e in x' || e in y'; }
      SameKeys(a, b);
      Boundary(x, y);
      Boundary(x', y');
      assert |x| == |x'| by {
        var n := if |x| < |x'| then |x| else |x'|;
        if n < |a| { assert a[n].key.rank == b[n].key.rank; }
      }
      forall i | 0 <= i < |x| ensures SameEntry(x[i].entry, x'[i].entry) { assert a[i] == x[i] && b[i] == x'[i]; }
      forall i | 0 <= i < |y| ensures SameEntry(y[i].entry, y'[i].entry) {
        assert a[|x| + i] == y[i] && b[|x| + i] == y'[i];
      }
    }
  }

  /** Ordered declarations compare equal exactly when their groups do. */
  lemma OrderedSame(a: seq<Keyed>, b: seq<Keyed>)
    requires Genuine(a) && Genuine(b) && Ordered(a) && Ordered(b)
    requires (forall e | e in a :: e.key.rank < 3) && forall e | e in b :: e.key.rank < 3
    ensures SameKeyed(a, b) <==> SameInGroups(a, b)
  {
    hide KeyOf, Sortable, SameEntry, Group, KeyBefore, UntypedEntry;
    if SameKeyed(a, b) {
      SameKeys(a, b);
      assert forall i | 0 <= i < |a| :: a[i] in a;
      SameKeyedStripped(a, b);
      forall k ensures SameKeyed(Group(a, k), Group(b, k)) {
        StripGroup(a, UntypedEntry, k);
        StripGroup(b, UntypedEntry, k);
        StrippedSame(Group(a, k), Group(b, k));
      }
    }
    if SameInGroups(a, b) {
      var x, y := Strip(a, UntypedEntry), Strip(b, UntypedEntry);
      forall k ensures Group(x, k) == Group(y, k) {
        assert SameKeyed(Group(a, k), Group(b, k));
        GroupKeys(a, k);
        GroupKeys(b, k);
        SameKeyedStripped(Group(a, k), Group(b, k));
        StripGroup(a, UntypedEntry, k);
        StripGroup(b, UntypedEntry, k);
      }
      assert Ordered(x) && Ordered(y);
      GroupsDetermine(x, y);
      StrippedSame(a, b);
    }
  }

  lemma GroupKeys(es: seq<Keyed>, k: Key)
    ensures forall i | 0 <= i < |Group(es, k)| :: Group(es, k)[i].key == k
  {
    forall i | 0 <= i < |Group(es, k)| ensures Group(es, k)[i].key == k { assert Group(es, k)[i] in Group(es, k); }
  }

  /** The comparison that decides whether a firewall differs. */
  ghost predicate Matches(a: seq<Entry>, b: seq<Entry>)
    requires AllSortable(a) && AllSortable(b)
  {
    SameEntries(CanonicalRules(a), CanonicalRules(b))
  }

  /** Two listings compare equal exactly when, for every table, chain and rule key, their normalized
      entries are equal in the same order, and the remaining entries, sorted by their written form, are
      equal one by one. */
  lemma ListingsMatch(a: seq<Entry>, b: seq<Entry>)
    requires AllSortable(a) && AllSortable(b)
    ensures Matches(a, b)
            <==> && SameDeclared(Listing(a), Listing(b))
                 && SameKeyed(Sort(Part(Listing(a), true)), Sort(Part(Listing(b), true)))
  {
    hide Sort, Group, Ordered, KeyOf, Sortable, SameEntry, Genuine, NormalizeEntry, SameDeclared, SameInGroups, Part;
    var s, t := Sort(Listing(a)), Sort(Listing(b));
    PartsOf(a);
    PartsOf(b);
    var x, y, x', y' := Part(s, false), Part(s, true), Part(t, false), Part(t, true);
    SplitTogether(x, y, x', y');
    OrderedSame(x, x');
    DeclaredGroups(a, b);
  }

  lemma DeclaredGroups(a: seq<Entry>, b: seq<Entry>)
    requires AllSortable(a) && AllSortable(b)
    ensures var x, y := Part(Sort(Listing(a)), false), Part(Sort(Listing(b)), false);
            SameInGroups(x, y) <==> SameDeclared(Listing(a), Listing(b))
  {
    hide Sort, Group, Ordered, KeyOf, Sortable, SameEntry, NormalizeEntry, Part, SameKeyed;
    var s, t := Sort(Listing(a)), Sort(Listing(b));
    assert SameKeyed([], []) by { Nothing(); }
    forall k
      ensures SameKeyed(Group(Part(s, false), k), Group(Part(t, false), k))
              <==> (k.rank < 3 ==> SameKeyed(Group(Listing(a), k), Group(Listing(b), k)))
    {
      SortIsStable(Listing(a), k);
      SortIsStable(Listing(b), k);
      PartGroup(s, false, k);
      PartGroup(t, false, k);
    }
  }

  lemma Nothing()
    ensures SameKeyed([], [])
  {
  }

  // ----- What the comparison distinguishes -----

  lemma {:induction false} GroupConcat(a: seq<Keyed>, b: seq<Keyed>, k: Key)
    ensures Group(a + b, k) == Group(a, k) + Group(b, k)
  {
    if a == [] {
      assert a + b == b;
    } else {
      assert (a + b)[1..] == a[1..] + b;
      GroupConcat(a[1..], b, k);
    }
  }

  lemma GroupPair(x: Keyed, y: Keyed, k: Key)
    ensures Group([x, y], k) == (if x.key == k then [x] else []) + (if y.key == k then [y] else [])
  {
    assert [x] + [y] == [x, y] && [y] + [] == [y];
    GroupStep(x, [y], k);
    GroupStep(y, [], k);
  }

  lemma ListingAround(p: seq<Entry>, x: Entry, y: Entry, q: seq<Entry>)
    requires AllSortable(p) && Sortable(NormalizeEntry(x)) && Sortable(NormalizeEntry(y)) && AllSortable(q)
    ensures AllSortable(p + [x, y] + q)
    ensures Listing(p + [x, y] + q) == Listing(p) + [KeyedEntry(x), KeyedEntry(y)] + Listing(q)
  {
    hide Sortable, NormalizeEntry, KeyOf, KeyedEntry;
  }

  lemma GroupAround(p: seq<Keyed>, x: Keyed, y: Keyed, q: seq<Keyed>, k: Key)
    ensures Group(p + [x, y] + q, k) == Group(p, k) + Group([x, y], k) + Group(q, k)
  {
    hide Group;
    GroupConcat(p + [x, y], q, k);
    GroupConcat(p, [x, y], k);
  }

  lemma StripAround(p: seq<Keyed>, x: Keyed, y: Keyed, q: seq<Keyed>, f: Entry -> Entry)
    requires x.key == y.key && f(x.entry) == f(y.entry)
    ensures Strip(p + [x, y] + q, f) == Strip(p + [y, x] + q, f)
  {
  }

  lemma MatchesKeyed(a: seq<Entry>, b: seq<Entry>)
    requires AllSortable(a) && AllSortable(b)
    ensures Matches(a, b) <==> SameKeyed(Sort(Listing(a)), Sort(Listing(b)))
  {
    hide Sort, KeyOf, Sortable, SameEntry, NormalizeEntry;
    var s, t := Sort(Listing(a)), Sort(Listing(b));
    assert |CanonicalRules(a)| == |s| && |CanonicalRules(b)| == |t|;
    assert forall i | 0 <= i < |s| :: CanonicalRules(a)[i] == s[i].entry;
    assert forall i | 0 <= i < |t| :: CanonicalRules(b)[i] == t[i].entry;
  }

  lemma ExchangeOtherKeys(p: seq<Keyed>, x: Keyed, y: Keyed, q: seq<Keyed>)
    requires x.key != y.key
    ensures SameKeyed(Sort(p + [x, y] + q), Sort(p + [y, x] + q))
  {
    hide Sort, Group, KeyBefore, SameKeyed, UntypedEntry;
    var a, b := p + [x, y] + q, p + [y, x] + q;
    forall k ensures Ordered(Sort(a)) && Ordered(Sort(b)) && Group(Sort(a), k) == Group(Sort(b), k) {
      SortIsStable(a, k);
      SortIsStable(b, k);
      GroupAround(p, x, y, q, k);
      GroupAround(p, y, x, q, k);
      GroupPair(x, y, k);
      GroupPair(y, x, k);
    }
    SortIsStable(a, x.key);
    SortIsStable(b, x.key);
    assert SameGroups(Sort(a), Sort(b));
    GroupsDetermine(Sort(a), Sort(b));
    StrippedSame(Sort(a), Sort(b));
  }

  function Blank(e: Entry): Entry { map[] }

  lemma ExchangeOneKey(p: seq<Keyed>, x: Keyed, y: Keyed, q: seq<Keyed>)
    requires x.key == y.key
    ensures SameKeyed(Sort(p + [x, y] + q), Sort(p + [y, x] + q)) <==> SameEntry(x.entry, y.entry)
  {
    hide Sort, Group, SameEntry, SameKeyed, UntypedEntry;
    var a, b := p + [x, y] + q, p + [y, x] + q;
    SameEntryUntyped(x.entry, y.entry);
    if SameEntry(x.entry, y.entry) {
      StripAround(p, x, y, q, UntypedEntry);
      StripSorted(a, b, UntypedEntry);
      StrippedSame(Sort(a), Sort(b));
    } else if SameKeyed(Sort(a), Sort(b)) {
      StripAround(p, x, y, q, Blank);
      StripSorted(a, b, Blank);
      BlankKeys(Sort(a), Sort(b));
      SameKeyedStripped(Sort(a), Sort(b));
      var k := x.key;
      ExchangedGroup(p, x, y, q);
      SortIsStable(a, k);
      SortIsStable(b, k);
      StripGroup(Sort(a), UntypedEntry, k);
      StripGroup(Sort(b), UntypedEntry, k);
    }
  }

  lemma BlankKeys(a: seq<Keyed>, b: seq<Keyed>)
    requires Strip(a, Blank) == Strip(b, Blank)
    ensures |a| == |b| && forall i | 0 <= i < |a| :: a[i].key == b[i].key
  {
    assert |Strip(a, Blank)| == |a| && |Strip(b, Blank)| == |b|;
    forall i | 0 <= i < |a| ensures a[i].key == b[i].key { assert Strip(a, Blank)[i].key == Strip(b, Blank)[i].key; }
  }

  lemma ExchangedGroup(p: seq<Keyed>, x: Keyed, y: Keyed, q: seq<Keyed>)
    requires x.key == y.key
    ensures var k, n := x.key, |Group(p, x.key)|;
            && |Group(p + [x, y] + q, k)| > n && |Group(p + [y, x] + q, k)| > n
            && Group(p + [x, y] + q, k)[n] == x && Group(p + [y, x] + q, k)[n] == y
  {
    hide Group;
    GroupAround(p, x, y, q, x.key);
    GroupAround(p, y, x, q, x.key);
    GroupPair(x, y, x.key);
    GroupPair(y, x, x.key);
  }

  /** Exchanging two neighbours is accepted exactly when they belong to different tables, chains or
      kinds, or compare equal. So a declaration may move past a rule, and a rule may not move past a
      different rule of its chain. */
  lemma ExchangeAccepted(p: seq<Entry>, x: Entry, y: Entry, q: seq<Entry>)
    requires AllSortable(p) && Sortable(NormalizeEntry(x)) && Sortable(NormalizeEntry(y)) && AllSortable(q)
    ensures AllSortable(p + [x, y] + q) && AllSortable(p + [y, x] + q)
    ensures Matches(p + [x, y] + q, p + [y, x] + q)
            <==> KeyedEntry(x).key != KeyedEntry(y).key || SameEntry(NormalizeEntry(x), NormalizeEntry(y))
  {
    hide Group, Sortable, NormalizeEntry, KeyOf, Sort, CanonicalRules, AllSortable, Listing, SameEntry, SameKeyed, Matches;
    ListingAround(p, x, y, q);
    ListingAround(p, y, x, q);
    MatchesKeyed(p + [x, y] + q, p + [y, x] + q);
    var kx, ky := KeyedEntry(x), KeyedEntry(y);
    if kx.key == ky.key {
      ExchangeOneKey(Listing(p), kx, ky, Listing(q));
    } else {
      ExchangeOtherKeys(Listing(p), kx, ky, Listing(q));
    }
  }

  lemma {:induction false} WholeGroup(es: seq<Keyed>, k: Key)
    requires forall e | e in es :: e.key == k
    ensures Group(es, k) == es
  {
    if es != [] {
      assert es[0] in es && forall e | e in es[1..] :: e in es;
      WholeGroup(es[1..], k);
    }
  }

  lemma SortedOneKey(es: seq<Keyed>, k: Key)
    requires forall e | e in es :: e.key == k
    ensures Sort(es) == es
  {
    hide Sort, Group;
    SortIsStable(es, k);
    forall e | e in Sort(es) ensures e.key == k { assert e in multiset(Sort(es)); }
    WholeGroup(es, k);
    WholeGroup(Sort(es), k);
  }

  /** Inside one chain the comparison is equality: of order, of number and of content. */
  lemma OneChain(a: seq<Entry>, b: seq<Entry>, k: Key)
    requires AllSortable(a) && AllSortable(b)
    requires forall e | e in a + b :: Sortable(NormalizeEntry(e)) && KeyedEntry(e).key == k
    ensures Matches(a, b) <==> SameEntries(NormalizeAll(a), NormalizeAll(b))
  {
    hide Sortable, NormalizeEntry, KeyOf, Sort, SameEntry;
    assert forall i | 0 <= i < |a| :: a[i] in a + b;
    assert forall i | 0 <= i < |b| :: b[i] in a + b;
    SortedOneKey(Listing(a), k);
    SortedOneKey(Listing(b), k);
    assert CanonicalRules(a) == NormalizeAll(a) && CanonicalRules(b) == NormalizeAll(b);
  }

  /** The equality is Python's: a rule with a true flag passes for the same rule with the integer 1. */
  lemma TrueIsOne()
    ensures var a, b := [FlaggedRule(Bool(true))], [FlaggedRule(Number(1))];
            AllSortable(a) && AllSortable(b) && Matches(a, b) && NormalizeAll(a) != NormalizeAll(b)
  {
    FlaggedRuleIs(Bool(true));
    FlaggedRuleIs(Number(1));
    FlagsCompareEqual();
    hide FlaggedRule, KeyOf, Sortable, SameEntry, NormalizeEntry, Matches;
    OneRule(FlaggedRule(Bool(true)), FlaggedRule(Number(1)));
  }

  /** Two single rules that compare equal. */
  lemma OneRule(x: Entry, y: Entry)
    requires NormalizeEntry(x) == x && NormalizeEntry(y) == y && Sortable(x) && Sortable(y)
    requires KeyOf(x) == KeyOf(y) && SameEntry(x, y) && x != y
    ensures AllSortable([x]) && AllSortable([y]) && Matches([x], [y]) && NormalizeAll([x]) != NormalizeAll([y])
  {
    hide KeyOf, Sortable, SameEntry, NormalizeEntry, Matches;
    var k := KeyOf(x);
    forall e | e in [x] + [y] ensures e == x || e == y {}
    OneChain([x], [y], k);
    assert NormalizeAll([x])[0] == x && NormalizeAll([y])[0] == y;
  }

  lemma FlagsCompareEqual()
    ensures var x, y := FlaggedRule(Bool(true)), FlaggedRule(Number(1)); x != y && SameEntry(x, y)
  {
    var x, y := FlaggedRule(Bool(true)), FlaggedRule(Number(1));
    var m, n := x[KINDS[2]].members, y[KINDS[2]].members;
    assert m[RIGHT] != n[RIGHT] && PyEqual(m[RIGHT], n[RIGHT]);
    assert PyEqual(x[KINDS[2]], y[KINDS[2]]);
  }

  const RIGHT: Text := Codes("right")

  function FlaggedRule(flag: Json): Entry { map[KINDS[2] := Object(map[RIGHT := flag])] }

  lemma FlaggedRuleIs(flag: Json)
    requires flag.Bool? || flag.Number?
    ensures var x := FlaggedRule(flag);
            NormalizeEntry(x) == x && Sortable(x) && KeyOf(x) == Key(2, [], [], [])
  {
    var x := FlaggedRule(flag);
    assert |KINDS[0]| == 5 && |KINDS[1]| == 5 && |KINDS[2]| == 4;
    assert |HANDLE| == 6 && |RIGHT| == 5;
    var m := x[KINDS[2]].members;
    assert |Codes("family")| == 6 && |Codes("name")| == 4;
    assert Codes("table")[0] != RIGHT[0] && Codes("chain")[0] != RIGHT[0];
    assert Normalize(Object(m)).members == m;
    assert Normalize(Object(x)).members == x;
  }

  /** Entries of the remaining kinds are sorted by their whole content, so their order never matters. */
  lemma OtherEntriesByContent(x: Entry, y: Entry)
    requires Sortable(x) && Sortable(y) && KeyOf(x).rank == 3 && KeyOf(x) == KeyOf(y)
    requires AllJoined(Object(x)) && AllJoined(Object(y))
    ensures x == y
  {
    hide Dump, AllJoined;
    var s, t := Dump(Object(x), " "), Dump(Object(y), " ");
    assert Codes(s) == Codes(t);
    forall i | 0 <= i < |s| ensures s[i] == t[i] { assert Codes(s)[i] == Codes(t)[i]; }
    assert s == t;
    DumpInjective(Object(x), Object(y), " ");
  }

  predicate HandleFree(v: Json) {
    match v
    case Object(m) => HANDLE !in m && forall k | k in m :: HandleFree(m[k])
    case Array(items) => forall i | 0 <= i < |items| :: HandleFree(items[i])
    case _ => true
  }

  /** Handles are dropped at every depth and nothing else is. */
  lemma {:induction false} NormalizeDropsHandles(v: Json)
    ensures HandleFree(Normalize(v))
    ensures HandleFree(v) ==> Normalize(v) == v
  {
    match v
    case Object(m) =>
      forall k | k in m
        ensures HandleFree(Normalize(m[k])) && (HandleFree(m[k]) ==> Normalize(m[k]) == m[k])
      {
        NormalizeDropsHandles(m[k]);
      }
    case Array(items) =>
      forall i | 0 <= i < |items|
        ensures HandleFree(Normalize(items[i])) && (HandleFree(items[i]) ==> Normalize(items[i]) == items[i])
      {
        NormalizeDropsHandles(items[i]);
      }
    case _ =>
  }

  function WithoutMetainfo(es: seq<Entry>): seq<Entry> {
    if es == [] then []
    else (if METAINFO in es[0] then [] else [es[0]]) + WithoutMetainfo(es[1..])
  }

  /** The check of an existing firewall: the listing, without its metainfo entries and already
      normalized, against the wanted rules. */
  ghost predicate Accepted(listing: seq<Entry>, wanted: seq<Entry>)
    requires AllSortable(NormalizeAll(WithoutMetainfo(listing))) && AllSortable(wanted)
  {
    Matches(NormalizeAll(WithoutMetainfo(listing)), wanted)
  }

  lemma AcceptedMeans(listing: seq<Entry>, wanted: seq<Entry>)
    requires AllSortable(WithoutMetainfo(listing)) && AllSortable(wanted)
    ensures AllSortable(NormalizeAll(WithoutMetainfo(listing)))
    ensures Accepted(listing, wanted)
            <==> && SameDeclared(Listing(WithoutMetainfo(listing)), Listing(wanted))
                 && SameKeyed(Sort(Part(Listing(WithoutMetainfo(listing)), true)), Sort(Part(Listing(wanted), true)))
  {
    hide Group, Sortable, KeyOf, Sort, CanonicalRules, WithoutMetainfo, Normalize, SameDeclared, SameKeyed, Part;
    var es := WithoutMetainfo(listing);
    var ns := NormalizeAll(es);
    forall i | 0 <= i < |es| ensures NormalizeEntry(ns[i]) == NormalizeEntry(es[i]) {
      NormalizeObject(Object(es[i]));
      NormalizeDropsHandles(Object(es[i]));
      NormalizeDropsHandles(Normalize(Object(es[i])));
    }
    assert Listing(ns) == Listing(es);
    ListingsMatch(ns, wanted);
  }

  lemma NormalizeObject(v: Json)
    requires v.Object?
    ensures Normalize(v).Object?
  {
  }
}
