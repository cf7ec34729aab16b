/** ydb/ynode.c: the node tree as a value, and what attaching, detaching and finding a child do to it. */
module YNode {
  import opened Common
  import YTree

  datatype Kind = Val | List | Map | Set | IMap | OMap

  /** A registered write hook; `id` stands for the hook object, which sits at one node only. */
  datatype Hook = Hook(id: nat, suppress: bool, valOnly: bool)

  /** A ynode with all that hangs below it.  Only values have a `value`, only the others `kids`; the
      entries of a list have the empty key. */
  datatype Tree = Tree(kind: Kind, value: string, tag: Option<string>, origin: nat, hook: Option<Hook>,
    kids: seq<Entry<Tree>>)

  /** A child, or whatever stands for it, as the container of its parent keeps it. */
  datatype Entry<+T> = Entry(key: string, node: T)

  /** type >= YNODE_TYPE_MAP */
  predicate MapLike(kind: Kind) {
    kind != Val && kind != List
  }

  /** The types kept in a search tree by the text of their keys. */
  predicate Textual(kind: Kind) {
    kind == Map || kind == Set
  }

  // ---------- the order of keys ----------

  /** strcmp */
  function StrCmp(a: string, b: string): (r: int)
    ensures r == 0 <==> a == b
  {
    if a == [] then (if b == [] then 0 else -1)
    else if b == [] then 1
    else if a[0] != b[0] then a[0] as int - b[0] as int
    else assert a == [a[0]] + a[1..] && b == [b[0]] + b[1..]; StrCmp(a[1..], b[1..])
  }

  /** The key that is a proper beginning of the other, or has the smaller character where they first
      differ, comes first. */
  lemma {:induction false} StrCmpIs(a: string, b: string)
    ensures StrCmp(a, b) < 0 <==> exists k :: ComesFirst(a, b, k)
  {
    if a != [] && b != [] && a[0] == b[0] {
      StrCmpIs(a[1..], b[1..]);
      if k :| ComesFirst(a[1..], b[1..], k) {
        assert a[..k + 1] == [a[0]] + a[1..][..k] && b[..k + 1] == [b[0]] + b[1..][..k];
        assert ComesFirst(a, b, k + 1);
      }
      if k :| ComesFirst(a, b, k) {
        assert k > 0;
        assert a[1..][..k - 1] == a[..k][1..] && b[1..][..k - 1] == b[..k][1..];
        assert ComesFirst(a[1..], b[1..], k - 1);
      }
    } else if b != [] && (a == [] || a[0] != b[0]) {
      assert ComesFirst(a, b, 0) <==> a == [] || a[0] < b[0];
      assert forall k :: ComesFirst(a, b, k) && k > 0 ==> a[..k][0] == b[..k][0];
    }
  }

  /** They are alike for `k` characters, and then `a` ends or has the smaller one. */
  predicate ComesFirst(a: string, b: string, k: int) {
    0 <= k <= |a| && k < |b| && a[..k] == b[..k] && (k == |a| || a[k] < b[k])
  }

  /** Maps, sets and ordered maps keep to the order of text, and so do keys of the same integer. */
  lemma {:induction false} TextCmpIs(kind: Kind, a: string, b: string)
    requires kind != IMap || Atoi(a) == Atoi(b)
    ensures KeyCmp(kind, a, b) < 0 <==> exists k :: ComesFirst(a, b, k)
  {
    StrCmpIs(a, b);
  }

  predicate IsDigit(c: char) {
    '0' <= c <= '9'
  }

  predicate IsSpace(c: char) {
    c == ' ' || '\t' <= c <= '\r'
  }

  function Digits(s: string, value: nat): nat {
    if s != [] && IsDigit(s[0]) then Digits(s[1..], 10 * value + (s[0] as int - '0' as int)) else value
  }

  /** White space, a sign, and as many digits as follow; 0 without any. */
  function Number(s: string): int {
    if s == [] then 0
    else if IsSpace(s[0]) then Number(s[1..])
    else if s[0] == '-' then 0 - Digits(s[1..], 0)
    else if s[0] == '+' then Digits(s[1..], 0)
    else Digits(s, 0)
  }

  const INTS := 0x1_0000_0000
  const LONGS := 0x1_0000_0000_0000_0000

  /** The `int` that an integer becomes: its remainder modulo 2^32, from -2^31 on. */
  function Wrap32(x: int): (r: int)
    ensures -(INTS / 2) <= r < INTS / 2
    ensures -(INTS / 2) <= x < INTS / 2 ==> r == x
  {
    (x + INTS / 2) % INTS - INTS / 2
  }

  /** atoi: strtol, which stops at the largest and least 64-bit integers, cut to an `int`. */
  function Atoi(s: string): (r: int)
    ensures -(INTS / 2) <= r < INTS / 2
    ensures -(INTS / 2) <= Number(s) < INTS / 2 ==> r == Number(s)
  {
    var n := Number(s);
    Wrap32(if n < -(LONGS / 2) then -(LONGS / 2) else if n >= LONGS / 2 then LONGS / 2 - 1 else n)
  }

  /** strcmp for maps and sets, imap_cmp for integer maps. */
  function KeyCmp(kind: Kind, a: string, b: string): (r: int)
    ensures r == 0 <==> a == b
  {
    var res := Wrap32(Atoi(a) - Atoi(b));
    if kind == IMap && res != 0 then res else StrCmp(a, b)
  }

  lemma {:induction false} StrCmpTransitive(a: string, b: string, c: string)
    ensures StrCmp(a, b) < 0 <==> StrCmp(b, a) > 0
    ensures StrCmp(a, b) <= 0 && StrCmp(b, c) <= 0 ==> StrCmp(a, c) <= 0
  {
    if a != [] && b != [] {
      StrCmpTransitive(a[1..], b[1..], if c == [] then c else c[1..]);
    }
  }

  /** The order of text is one the balanced tree can work with, and only equal keys are
      interchangeable under it. */
  lemma {:induction false} KeyCmpTotal(kind: Kind)
    requires kind != IMap
    ensures YTree.TotalOrder((a, b) => KeyCmp(kind, a, b))
  {
    hide StrCmp, Atoi;
    forall a, b ensures KeyCmp(kind, a, b) < 0 <==> KeyCmp(kind, b, a) > 0 {
      StrCmpTransitive(a, b, a);
    }
    forall a, b, c | KeyCmp(kind, a, b) <= 0 && KeyCmp(kind, b, c) <= 0 ensures KeyCmp(kind, a, c) <= 0 {
      StrCmpTransitive(a, b, c);
    }
  }

  // ---------- the order of integer keys ----------

  /** The comparison orders these keys. */
  ghost predicate OrderOn(kind: Kind, keys: set<string>) {
    (forall a, b :: a in keys && b in keys ==> (KeyCmp(kind, a, b) < 0 <==> KeyCmp(kind, b, a) > 0)) &&
    forall a, b, c :: a in keys && b in keys && c in keys && KeyCmp(kind, a, b) <= 0 && KeyCmp(kind, b, c) <= 0 ==>
      KeyCmp(kind, a, c) <= 0
  }

  lemma {:induction false} TextIsOrdered(kind: Kind, keys: set<string>)
    requires kind != IMap
    ensures OrderOn(kind, keys)
  {
    hide StrCmp, Atoi, KeyCmp;
    KeyCmpTotal(kind);
    var comp := (a, b) => KeyCmp(kind, a, b);
    assert forall a, b :: comp(a, b) == KeyCmp(kind, a, b);
  }

  lemma {:induction false} OrderOnSome(kind: Kind, keys: set<string>, some: set<string>)
    requires OrderOn(kind, keys) && some <= keys
    ensures OrderOn(kind, some)
  {
    hide KeyCmp;
  }

  /** imap_cmp is not an order: the difference of two integers need not be one, and these three keys
      are each above the next. */
  lemma {:induction false} KeysInCircle()
    ensures var a, b, c := "2000000000", "0", "-2000000000";
      KeyCmp(IMap, a, b) > 0 && KeyCmp(IMap, b, c) > 0 && KeyCmp(IMap, a, c) < 0 && !OrderOn(IMap, {a, b, c})
  {
    hide KeyCmp;
    FarKeys();
    var keys := {"2000000000", "0", "-2000000000"};
    assert OrderOn(IMap, keys) ==> KeyCmp(IMap, "-2000000000", "2000000000") <= 0;
  }

  lemma {:induction false} FarKeys()
    ensures var a, b, c := "2000000000", "0", "-2000000000";
      KeyCmp(IMap, a, b) > 0 && KeyCmp(IMap, b, a) < 0 && KeyCmp(IMap, b, c) > 0 && KeyCmp(IMap, c, b) < 0
      && KeyCmp(IMap, a, c) < 0 && KeyCmp(IMap, c, a) > 0
  {
    hide StrCmp, Atoi;
    FarIntegers();
  }

  lemma {:induction false} FarIntegers()
    ensures Atoi("2000000000") == 2000000000 && Atoi("0") == 0 && Atoi("-2000000000") == -2000000000
  {
    hide Digits;
    DigitsOfMost();
  }

  lemma {:induction false} DigitsOfMost()
    ensures Digits("2000000000", 0) == 2000000000 && Digits("0", 0) == 0 && "-2000000000"[1..] == "2000000000"
  {
    hide Ten;
    assert "0"[1..] == [] && Digits("0", 0) == Digits("0"[1..], 0);
    NineZeros();
    Zeros(9, 2);
  }

  lemma {:induction false} NineZeros()
    ensures "2000000000"[1..] == seq(9, _ => '0') && Ten(9) == 1000000000
  {
    assert Ten(5) == 100000;
  }

  lemma {:induction false} Zeros(n: nat, value: nat)
    ensures Digits(seq(n, _ => '0'), value) == value * Ten(n)
  {
    if n > 0 {
      assert seq(n, _ => '0')[1..] == seq(n - 1, _ => '0');
      Zeros(n - 1, 10 * value);
    }
  }

  function Ten(n: nat): nat {
    if n == 0 then 1 else 10 * Ten(n - 1)
  }

  /** How far `a` lies ahead of `m` when the integers are taken as a circle. */
  function Ahead(m: string, a: string): (r: nat)
    ensures r < INTS
  {
    (Atoi(a) - Atoi(m)) % INTS
  }

  /** The order of the integers on the circle as it is met from `m` on. */
  function CmpFrom(m: string, a: string, b: string): int {
    if Ahead(m, a) != Ahead(m, b) then Ahead(m, a) - Ahead(m, b) else StrCmp(a, b)
  }

  lemma {:induction false} CmpFromTotal(m: string)
    ensures YTree.TotalOrder((a, b) => CmpFrom(m, a, b))
  {
    hide StrCmp, Ahead;
    forall a, b ensures CmpFrom(m, a, b) < 0 <==> CmpFrom(m, b, a) > 0 {
      StrCmpTransitive(a, b, a);
    }
    forall a, b, c | CmpFrom(m, a, b) <= 0 && CmpFrom(m, b, c) <= 0 ensures CmpFrom(m, a, c) <= 0 {
      StrCmpTransitive(a, b, c);
    }
  }

  /** All of them lie on the half circle that begins at `m`. */
  ghost predicate HalfFrom(m: string, keys: set<string>) {
    m in keys && forall a :: a in keys ==> Ahead(m, a) < INTS / 2
  }

  /** On a half circle imap_cmp is that order, and so a balanced tree of such keys works. */
  lemma {:induction false} HalfIsOrdered(m: string, keys: set<string>)
    requires HalfFrom(m, keys)
    ensures forall a, b :: a in keys && b in keys ==> KeyCmp(IMap, a, b) == CmpFrom(m, a, b)
    ensures OrderOn(IMap, keys)
  {
    hide KeyCmp, CmpFrom;
    forall a, b | a in keys && b in keys ensures KeyCmp(IMap, a, b) == CmpFrom(m, a, b) {
      CmpOnHalf(m, a, b);
    }
    CmpFromTotal(m);
    var comp := (a, b) => CmpFrom(m, a, b);
    assert forall a, b :: comp(a, b) == CmpFrom(m, a, b);
  }

  lemma {:induction false} CmpOnHalf(m: string, a: string, b: string)
    requires Ahead(m, a) < INTS / 2 && Ahead(m, b) < INTS / 2
    ensures KeyCmp(IMap, a, b) == CmpFrom(m, a, b)
  {
    hide StrCmp, Atoi;
  }

  lemma {:induction false} AheadOfLeast(m: string, a: string)
    requires KeyCmp(IMap, m, a) <= 0 && (KeyCmp(IMap, m, a) < 0 <==> KeyCmp(IMap, a, m) > 0)
    ensures Ahead(m, a) < INTS / 2
  {
    hide StrCmp, Atoi;
  }

  lemma {:induction false} LeastKey(kind: Kind, keys: set<string>) returns (m: string)
    requires keys != {} && OrderOn(kind, keys)
    ensures m in keys && forall a :: a in keys ==> KeyCmp(kind, m, a) <= 0
    decreases |keys|
  {
    hide KeyCmp, OrderOn;
    var x :| x in keys;
    var rest := keys - {x};
    assert keys == rest + {x};
    OrderOnSome(kind, keys, rest);
    m := x;
    if rest != {} {
      var l := LeastKey(kind, rest);
      m := if KeyCmp(kind, l, x) <= 0 then l else x;
      forall a | a in rest ensures KeyCmp(kind, m, a) <= 0 {
        LesserOf(kind, keys, l, x, a);
      }
    }
  }

  lemma {:induction false} LesserOf(kind: Kind, keys: set<string>, l: string, x: string, a: string)
    requires OrderOn(kind, keys) && l in keys && x in keys && a in keys && KeyCmp(kind, l, a) <= 0
    ensures KeyCmp(kind, if KeyCmp(kind, l, x) <= 0 then l else x, a) <= 0
  {
    hide KeyCmp;
  }

  /** Exactly the keys on one half of the circle are ordered by imap_cmp. */
  lemma {:induction false} OrderedIffHalf(keys: set<string>)
    requires keys != {}
    ensures OrderOn(IMap, keys) <==> exists m :: HalfFrom(m, keys)
  {
    hide KeyCmp, Ahead;
    if OrderOn(IMap, keys) {
      var m := LeastKey(IMap, keys);
      forall a | a in keys ensures Ahead(m, a) < INTS / 2 {
        AheadOfLeast(m, a);
      }
      assert HalfFrom(m, keys);
    }
    if m :| HalfFrom(m, keys) {
      HalfIsOrdered(m, keys);
    }
  }

  /** The order of an integer map as it is meant: by number, and by text among equal numbers. */
  function NumberCmp(a: string, b: string): int {
    if Atoi(a) != Atoi(b) then Atoi(a) - Atoi(b) else StrCmp(a, b)
  }

  ghost predicate ByNumber(keys: set<string>) {
    forall a, b :: a in keys && b in keys ==> (KeyCmp(IMap, a, b) < 0 <==> NumberCmp(a, b) < 0)
  }

  /** imap_cmp orders by number exactly where no two integers are 2^31 or more apart. */
  lemma {:induction false} ByNumberIffNear(keys: set<string>)
    ensures ByNumber(keys) <==> forall a, b :: a in keys && b in keys ==> Atoi(a) - Atoi(b) < INTS / 2
  {
    hide StrCmp, Atoi;
    forall a, b | a in keys && b in keys && Atoi(a) - Atoi(b) >= INTS / 2
      ensures KeyCmp(IMap, a, b) < 0 && NumberCmp(a, b) > 0
    {
    }
    forall a, b | a in keys && b in keys && -(INTS / 2) < Atoi(a) - Atoi(b) < INTS / 2
      ensures KeyCmp(IMap, a, b) == NumberCmp(a, b)
    {
    }
  }

  /** Being in order is less than that: two keys that far apart can be in order, the wrong one. */
  lemma {:induction false} FarApart()
    ensures var a, c := "2000000000", "-2000000000";
      Atoi(a) - Atoi(c) >= INTS / 2 && OrderOn(IMap, {a, c}) && KeyCmp(IMap, a, c) < 0
  {
    hide StrCmp, Atoi;
    var a, c := "2000000000", "-2000000000";
    FarIntegers();
    assert Ahead(a, c) == 294967296 && Ahead(a, a) == 0;
    assert HalfFrom(a, {a, c});
    HalfIsOrdered(a, {a, c});
  }

  // ---------- children ----------

  /** The place of `key` among the children, their number if it is not there. */
  function IndexOf<T>(kids: seq<Entry<T>>, key: string): (i: nat)
    ensures i <= |kids| && forall j :: 0 <= j < i ==> kids[j].key != key
    ensures i < |kids| ==> kids[i].key == key
  {
    if kids == [] then 0 else if kids[0].key == key then 0 else 1 + IndexOf(kids[1..], key)
  }

  /** The child at `key` of a map-like node. */
  function Child(t: Tree, key: string): (c: Option<Tree>) {
    var i := IndexOf(t.kids, key);
    if i < |t.kids| then Some(t.kids[i].node) else None
  }

  /** The number of keys in front of `key` in a sorted collection. */
  function Rank<T>(kind: Kind, kids: seq<Entry<T>>, key: string): (i: nat)
    ensures i <= |kids| && forall j :: 0 <= j < i ==> KeyCmp(kind, kids[j].key, key) < 0
    ensures i < |kids| ==> KeyCmp(kind, kids[i].key, key) >= 0
  {
    if kids == [] then 0
    else if KeyCmp(kind, kids[0].key, key) >= 0 then 0
    else 1 + Rank(kind, kids[1..], key)
  }

  /** Only the keys decide where something is found or belongs. */
  lemma {:induction false} SameKeys<S, T>(a: seq<Entry<S>>, b: seq<Entry<T>>, key: string)
    requires |a| == |b| && forall j :: 0 <= j < |a| ==> a[j].key == b[j].key
    ensures IndexOf(a, key) == IndexOf(b, key)
  {
    if a != [] {
      SameKeys(a[1..], b[1..], key);
    }
  }

  lemma {:induction false} SameRank<S, T>(kind: Kind, a: seq<Entry<S>>, b: seq<Entry<T>>, key: string)
    requires |a| == |b| && forall j :: 0 <= j < |a| ==> a[j].key == b[j].key
    ensures Rank(kind, a, key) == Rank(kind, b, key)
  {
    if a != [] {
      SameRank(kind, a[1..], b[1..], key);
    }
  }

  lemma {:induction false} DroppedEntries<T>(kids: seq<Entry<T>>, i: nat)
    requires i <= |kids|
    ensures forall j :: 0 <= j < |kids| && j != i ==> kids[j] in Without(kids, i)
    ensures forall j :: 0 <= j < |Without(kids, i)| ==> Without(kids, i)[j] in kids
  {
    forall j | 0 <= j < |kids| && j != i ensures kids[j] in Without(kids, i) {
      assert kids[j] == Without(kids, i)[if j < i || i == |kids| then j else j - 1];
    }
  }

  /** ynode_attach: a list takes the node at its end; an ordered map too, after dropping the entry of
      that key; the others replace the entry in place or add it where it belongs. */
  function Added<T>(kind: Kind, kids: seq<Entry<T>>, key: string, node: T): seq<Entry<T>> {
    var i := IndexOf(kids, key);
    if kind == List then kids + [Entry("", node)]
    else if kind == OMap then Without(kids, i) + [Entry(key, node)]
    else if i < |kids| then kids[i := Entry(key, node)]
    else var at := Rank(kind, kids, key); kids[..at] + [Entry(key, node)] + kids[at..]
  }

  function Attach(t: Tree, key: string, node: Tree): (r: Tree)
    ensures r == t.(kids := r.kids)
  {
    t.(kids := Added(t.kind, t.kids, key, node))
  }

  /** ynode_detach of the child at `key` */
  function Detach(t: Tree, key: string): (r: Tree)
    ensures r == t.(kids := r.kids)
  {
    t.(kids := Without(t.kids, IndexOf(t.kids, key)))
  }

  /** A child has been changed where it is. */
  function Update(t: Tree, i: nat, node: Tree): (r: Tree)
    requires i < |t.kids|
    ensures r == t.(kids := r.kids)
  {
    t.(kids := t.kids[i := t.kids[i].(node := node)])
  }

  // ---------- what the containers keep ----------

  ghost predicate UniqueKeys<T>(kids: seq<Entry<T>>) {
    forall i, j :: 0 <= i < j < |kids| ==> kids[i].key != kids[j].key
  }

  ghost predicate AscendingKeys<T>(kind: Kind, kids: seq<Entry<T>>) {
    forall i, j :: 0 <= i < j < |kids| ==>
      KeyCmp(kind, kids[i].key, kids[j].key) < 0 && KeyCmp(kind, kids[j].key, kids[i].key) > 0
  }

  ghost function KeySet<T>(kids: seq<Entry<T>>): set<string> {
    set e | e in kids :: e.key
  }

  /** The children of one node are as its container keeps them, apart from the order of an imap. */
  ghost predicate Kept(t: Tree) {
    (t.kind == Val ==> t.kids == []) &&
    (t.kind == List ==> forall i :: 0 <= i < |t.kids| ==> t.kids[i].key == "") &&
    (MapLike(t.kind) ==> UniqueKeys(t.kids)) &&
    (Textual(t.kind) ==> AscendingKeys(t.kind, t.kids))
  }

  ghost predicate WellFormed(t: Tree) {
    Kept(t) && forall i :: 0 <= i < |t.kids| ==> WellFormed(t.kids[i].node)
  }

  /** The integer maps are in order too. */
  ghost predicate ImapsAscend(t: Tree) {
    (t.kind == IMap ==> AscendingKeys(IMap, t.kids)) && forall i :: 0 <= i < |t.kids| ==> ImapsAscend(t.kids[i].node)
  }

  lemma {:induction false} AttachKept(t: Tree, key: string, node: Tree)
    requires Kept(t) && t.kind != Val
    ensures Kept(Attach(t, key, node))
  {
    hide IndexOf, Rank, KeyCmp, OrderOn;
    if MapLike(t.kind) && t.kind != OMap && IndexOf(t.kids, key) == |t.kids| {
      InsertedUnique(t.kids, Rank(t.kind, t.kids, key), key, node);
      if Textual(t.kind) {
        TextIsOrdered(t.kind, KeySet(t.kids) + {key});
        InsertedAscending(t.kind, t.kids, key, node);
      }
    }
  }

  lemma {:induction false} InsertedUnique(kids: seq<Entry<Tree>>, at: nat, key: string, node: Tree)
    requires UniqueKeys(kids) && at <= |kids| && forall i :: 0 <= i < |kids| ==> kids[i].key != key
    ensures UniqueKeys(kids[..at] + [Entry(key, node)] + kids[at..])
  {
    var r := kids[..at] + [Entry(key, node)] + kids[at..];
    forall i, j | 0 <= i < j < |r| ensures r[i].key != r[j].key {
      assert r[i] == if i < at then kids[i] else if i == at then Entry(key, node) else kids[i - 1];
      assert r[j] == if j < at then kids[j] else if j == at then Entry(key, node) else kids[j - 1];
    }
  }

  /** A key that is not there lands where the keys stay ascending, if and only if the comparison orders
      it together with them. */
  lemma {:induction false} InsertedAscending(kind: Kind, kids: seq<Entry<Tree>>, key: string, node: Tree)
    requires AscendingKeys(kind, kids) && forall i :: 0 <= i < |kids| ==> kids[i].key != key
    ensures var at := Rank(kind, kids, key); var r := kids[..at] + [Entry(key, node)] + kids[at..];
      AscendingKeys(kind, r) <==> OrderOn(kind, KeySet(kids) + {key})
  {
    hide Rank, KeyCmp, OrderOn, AscendingKeys;
    var at := Rank(kind, kids, key);
    var r := kids[..at] + [Entry(key, node)] + kids[at..];
    InsertedKeys(kids, at, key, node);
    if OrderOn(kind, KeySet(r)) {
      forall i | 0 <= i < |kids| ensures Apart(kind, kids[i].key, key, i < at) {
        KeyBeside(kind, kids, key, i, KeySet(r));
      }
      InsertedBetween(kind, kids, at, key, node);
    }
    if AscendingKeys(kind, r) {
      AscendingIsOrder(kind, r);
    }
  }

  lemma {:induction false} InsertedKeys(kids: seq<Entry<Tree>>, at: nat, key: string, node: Tree)
    requires at <= |kids|
    ensures KeySet(kids[..at] + [Entry(key, node)] + kids[at..]) == KeySet(kids) + {key}
  {
    var r := kids[..at] + [Entry(key, node)] + kids[at..];
    assert kids == kids[..at] + kids[at..];
    assert forall e :: e in r <==> e in kids || e == Entry(key, node);
    assert Entry(key, node) in r;
  }

  /** `a` comes before `b`, or after it. */
  ghost predicate Apart(kind: Kind, a: string, b: string, before: bool) {
    if before then KeyCmp(kind, a, b) < 0 && KeyCmp(kind, b, a) > 0
      else KeyCmp(kind, b, a) < 0 && KeyCmp(kind, a, b) > 0
  }

  lemma {:induction false} InsertedBetween(kind: Kind, kids: seq<Entry<Tree>>, at: nat, key: string, node: Tree)
    requires AscendingKeys(kind, kids) && at <= |kids|
    requires forall i :: 0 <= i < |kids| ==> Apart(kind, kids[i].key, key, i < at)
    ensures AscendingKeys(kind, kids[..at] + [Entry(key, node)] + kids[at..])
  {
    hide KeyCmp;
    var r := kids[..at] + [Entry(key, node)] + kids[at..];
    forall i, j | 0 <= i < j < |r| ensures Apart(kind, r[i].key, r[j].key, true) {
      assert r[i] == if i < at then kids[i] else if i == at then Entry(key, node) else kids[i - 1];
      assert r[j] == if j < at then kids[j] else if j == at then Entry(key, node) else kids[j - 1];
    }
  }

  /** A key belongs behind those in front of its rank, and before the others. */
  lemma {:induction false} KeyBeside(kind: Kind, kids: seq<Entry<Tree>>, key: string, i: nat, keys: set<string>)
    requires AscendingKeys(kind, kids) && i < |kids| && kids[i].key != key
    requires KeySet(kids) <= keys && key in keys && OrderOn(kind, keys)
    ensures Apart(kind, kids[i].key, key, i < Rank(kind, kids, key))
  {
    hide KeyCmp, Rank, OrderOn, KeySet;
    var at := Rank(kind, kids, key);
    KeysIn(kids, i);
    if at <= i {
      KeysIn(kids, at);
      KeyAfter(kind, keys, key, kids[at].key, kids[i].key);
    } else {
      KeyFlip(kind, keys, kids[i].key, key);
    }
  }

  lemma {:induction false} KeysIn<T>(kids: seq<Entry<T>>, i: nat)
    requires i < |kids|
    ensures kids[i].key in KeySet(kids)
  {
  }

  lemma {:induction false} KeyFlip(kind: Kind, keys: set<string>, a: string, b: string)
    requires OrderOn(kind, keys) && a in keys && b in keys
    ensures KeyCmp(kind, a, b) < 0 <==> KeyCmp(kind, b, a) > 0
  {
  }

  /** A key not above one in an ascending row is below those that follow. */
  lemma {:induction false} KeyAfter(kind: Kind, keys: set<string>, k: string, a: string, b: string)
    requires OrderOn(kind, keys) && k in keys && a in keys && b in keys
    requires KeyCmp(kind, a, k) >= 0 && b != k && KeyCmp(kind, a, b) <= 0
    ensures Apart(kind, b, k, false)
  {
    hide KeyCmp;
  }

  lemma {:induction false} AscendingIsOrder<T>(kind: Kind, kids: seq<Entry<T>>)
    requires AscendingKeys(kind, kids)
    ensures OrderOn(kind, KeySet(kids))
  {
    hide KeyCmp;
    var keys := KeySet(kids);
    forall a, b | a in keys && b in keys ensures KeyCmp(kind, a, b) < 0 <==> KeyCmp(kind, b, a) > 0 {
      var i := KeyAt(kids, a);
      var j := KeyAt(kids, b);
      assert i == j || i < j || j < i;
    }
    forall a, b, c | a in keys && b in keys && c in keys && KeyCmp(kind, a, b) <= 0 && KeyCmp(kind, b, c) <= 0
      ensures KeyCmp(kind, a, c) <= 0
    {
      var i := KeyAt(kids, a);
      var j := KeyAt(kids, b);
      var k := KeyAt(kids, c);
      assert i <= j <= k;
    }
  }

  lemma {:induction false} KeyAt<T>(kids: seq<Entry<T>>, key: string) returns (i: nat)
    requires key in KeySet(kids)
    ensures i < |kids| && kids[i].key == key
  {
    var e :| e in kids && e.key == key;
    i :| 0 <= i < |kids| && kids[i] == e;
  }

  lemma {:induction false} DetachKept(t: Tree, key: string)
    requires Kept(t)
    ensures Kept(Detach(t, key))
  {
    hide IndexOf, KeyCmp;
  }

  lemma {:induction false} UpdateKept(t: Tree, i: nat, node: Tree)
    requires Kept(t) && i < |t.kids|
    ensures Kept(Update(t, i, node))
  {
    hide KeyCmp;
  }

  /** Which children a node has afterwards. */
  lemma {:induction false} AttachedNodes(t: Tree, key: string, node: Tree)
    ensures forall i :: 0 <= i < |Attach(t, key, node).kids| ==>
      Attach(t, key, node).kids[i].node == node || Attach(t, key, node).kids[i] in t.kids
  {
    hide IndexOf, Rank;
  }

  lemma {:induction false} DetachedNodes(t: Tree, key: string)
    ensures forall i :: 0 <= i < |Detach(t, key).kids| ==> Detach(t, key).kids[i] in t.kids
  {
    hide IndexOf;
  }

  /** Attaching keeps the containers as they have to be, and in an ordered map every other child where
      it was among the others. */
  lemma {:induction false} AttachWellFormed(t: Tree, key: string, node: Tree)
    requires WellFormed(t) && WellFormed(node) && t.kind != Val
    ensures WellFormed(Attach(t, key, node))
    ensures t.kind == List ==> Attach(t, key, node).kids == t.kids + [Entry("", node)]
    ensures t.kind == OMap ==>
      Attach(t, key, node).kids == Others(t.kids, key) + [Entry(key, node)]
  {
    hide IndexOf, Rank, KeyCmp, Kept;
    AttachKept(t, key, node);
    AttachedNodes(t, key, node);
    if t.kind == OMap {
      assert UniqueKeys(t.kids) by {
        KeptUnique(t);
      }
      WithoutKey(t.kids, key);
    }
  }

  /** The children of other keys, in their order. */
  function Others<T>(kids: seq<Entry<T>>, key: string): seq<Entry<T>> {
    if kids == [] then []
    else (if kids[0].key == key then [] else [kids[0]]) + Others(kids[1..], key)
  }

  lemma {:induction false} KeptUnique(t: Tree)
    requires Kept(t) && MapLike(t.kind)
    ensures UniqueKeys(t.kids)
  {
  }

  lemma {:induction false} WithoutKey<T>(kids: seq<Entry<T>>, key: string)
    requires UniqueKeys(kids)
    ensures Without(kids, IndexOf(kids, key)) == Others(kids, key)
  {
    hide IndexOf;
    if kids != [] {
      IndexOfTail(kids, key);
      if kids[0].key == key {
        OthersAll(kids[1..], key);
      } else {
        WithoutKey(kids[1..], key);
        WithoutTail(kids, 1 + IndexOf(kids[1..], key));
      }
    }
  }

  lemma {:induction false} IndexOfTail<T>(kids: seq<Entry<T>>, key: string)
    requires kids != []
    ensures IndexOf(kids, key) == if kids[0].key == key then 0 else 1 + IndexOf(kids[1..], key)
  {
  }

  lemma {:induction false} WithoutTail<T>(s: seq<T>, i: nat)
    requires 0 < i <= |s|
    ensures Without(s, i) == [s[0]] + Without(s[1..], i - 1)
  {
  }

  lemma {:induction false} OthersAll<T>(kids: seq<Entry<T>>, key: string)
    requires forall i :: 0 <= i < |kids| ==> kids[i].key != key
    ensures Others(kids, key) == kids
  {
    if kids != [] {
      OthersAll(kids[1..], key);
    }
  }

  lemma {:induction false} DetachWellFormed(t: Tree, key: string)
    requires WellFormed(t)
    ensures WellFormed(Detach(t, key))
  {
    hide IndexOf, Kept, Detach;
    DetachKept(t, key);
    DetachedNodes(t, key);
  }

  lemma {:induction false} UpdateWellFormed(t: Tree, i: nat, node: Tree)
    requires WellFormed(t) && WellFormed(node) && i < |t.kids|
    ensures WellFormed(Update(t, i, node))
  {
    hide Kept;
    UpdateKept(t, i, node);
  }
}
