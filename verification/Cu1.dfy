/** Canonical form cu1 (verifier/canon.go): members sorted by UTF-16 code unit, lexemes verbatim.
    Canonical text determines a record up to the order of its members, and nothing else. */
module Cu1 {
  import opened JsonTokenizer
  import opened JsonPrinter

  // ----- code unit order

  predicate Less(a: seq<int>, b: seq<int>) {
    b != [] && (a == [] || a[0] < b[0] || (a[0] == b[0] && Less(a[1..], b[1..])))
  }

  /** `b` goes on where `a` ends, or has the higher unit at the first place where they differ. */
  ghost predicate SortsBefore(a: seq<int>, b: seq<int>) { (|a| < |b| && a == b[..|a|]) || exists k :: DiffersAt(a, b, k) }

  predicate DiffersAt(a: seq<int>, b: seq<int>, k: int) { 0 <= k < |a| && k < |b| && a[..k] == b[..k] && a[k] < b[k] }

  lemma DiffersStep(x: int, a: seq<int>, b: seq<int>, k: int)
    ensures k >= 0 ==> (DiffersAt([x] + a, [x] + b, k + 1) <==> DiffersAt(a, b, k))
  {
    if 0 <= k < |a| && k < |b| {
      assert ([x] + a)[..k + 1] == [x] + a[..k] && ([x] + b)[..k + 1] == [x] + b[..k];
      SameRest(x, a[..k], b[..k]);
    }
  }

  lemma SameRest(x: int, c: seq<int>, d: seq<int>)
    ensures [x] + c == [x] + d <==> c == d
  {
    if [x] + c == [x] + d { assert ([x] + c)[1..] == c && ([x] + d)[1..] == d; }
  }

  lemma SortsStep(x: int, a: seq<int>, b: seq<int>)
    ensures SortsBefore([x] + a, [x] + b) <==> SortsBefore(a, b)
  {
    hide DiffersAt;
    if |a| < |b| {
      assert ([x] + b)[..|a| + 1] == [x] + b[..|a|];
      SameRest(x, a, b[..|a|]);
    }
    if k :| DiffersAt(a, b, k) {
      DiffersInside(a, b, k);
      DiffersStep(x, a, b, k);
    }
    if k :| DiffersAt([x] + a, [x] + b, k) {
      DiffersInside([x] + a, [x] + b, k);
      if k == 0 { NotAtOnce(x, a, b); } else { DiffersStep(x, a, b, k - 1); }
    }
  }

  lemma NotAtOnce(x: int, a: seq<int>, b: seq<int>)
    ensures !DiffersAt([x] + a, [x] + b, 0)
  {
  }

  lemma DiffersInside(a: seq<int>, b: seq<int>, k: int)
    requires DiffersAt(a, b, k)
    ensures 0 <= k < |a|
  {
  }

  /** The first unit at which two keys differ decides, and the lower one sorts first; where none differs, the shorter key. */
  lemma {:induction false} LessExactly(a: seq<int>, b: seq<int>)
    ensures Less(a, b) <==> SortsBefore(a, b)
    decreases |a|
  {
    hide SortsBefore;
    if a != [] && b != [] && a[0] == b[0] {
      LessExactly(a[1..], b[1..]);
      SortsStep(a[0], a[1..], b[1..]);
      assert a == [a[0]] + a[1..] && b == [a[0]] + b[1..];
    } else {
      FirstDecides(a, b);
    }
  }

  lemma FirstDecides(a: seq<int>, b: seq<int>)
    requires a == [] || b == [] || a[0] != b[0]
    ensures SortsBefore(a, b) <==> b != [] && (a == [] || a[0] < b[0])
  {
    if a == [] && b != [] { assert b[..0] == []; }
    if a != [] && b != [] {
      if a[0] < b[0] { assert DiffersAt(a, b, 0); }
      assert |a| < |b| ==> b[..|a|][0] == b[0];
      forall k | 0 < k < |a| && k < |b|
        ensures a[..k] != b[..k]
      {
        assert a[..k][0] == a[0] && b[..k][0] == b[0];
      }
    }
  }

  lemma {:induction false} LessTotal(a: seq<int>, b: seq<int>)
    ensures Less(a, b) || a == b || Less(b, a)
    ensures !(Less(a, b) && Less(b, a)) && !Less(a, a)
  {
    if a != [] {
      LessIrreflexive(a);
      if b != [] {
        LessTotal(a[1..], b[1..]);
        assert a == [a[0]] + a[1..] && b == [b[0]] + b[1..];
      }
    }
  }

  lemma {:induction false} LessIrreflexive(a: seq<int>)
    ensures !Less(a, a)
  {
    if a != [] { LessIrreflexive(a[1..]); }
  }

  lemma {:induction false} LessTransitive(a: seq<int>, b: seq<int>, c: seq<int>)
    requires Less(a, b) && Less(b, c)
    ensures Less(a, c)
  {
    if a != [] && a[0] == b[0] == c[0] { LessTransitive(a[1..], b[1..], c[1..]); }
  }

  /** compareUTF16: negative, zero or positive as `a` sorts before, with or after `b`. */
  method CompareUtf16(a: seq<int>, b: seq<int>) returns (r: int)
    ensures r < 0 <==> Less(a, b)
    ensures r > 0 <==> Less(b, a)
    ensures r == 0 <==> a == b
  {
    LessTotal(a, b);
    var n := if |b| < |a| then |b| else |a|;
    assert a[0..] == a && b[0..] == b;
    for i := 0 to n
      invariant a[..i] == b[..i]
      invariant Less(a, b) == Less(a[i..], b[i..]) && Less(b, a) == Less(b[i..], a[i..])
    {
      assert a[i..][1..] == a[i + 1..] && b[i..][1..] == b[i + 1..];
      if a[i] != b[i] {
        return if a[i] < b[i] then -1 else 1;
      }
    }
    return if |a| < |b| then -1 else if |a| > |b| then 1 else 0;
  }

  // ----- sorted members

  function Insert(m: Member, sorted: seq<Member>): seq<Member> {
    if sorted != [] && Less(sorted[0].units, m.units) then [sorted[0]] + Insert(m, sorted[1..])
    else [m] + sorted
  }

  /** sortedMembers: the stable sort by decoded key, compared as code units. */
  function SortMembers(members: seq<Member>): seq<Member> {
    if members == [] then [] else Insert(members[0], SortMembers(members[1..]))
  }

  /** Strictly ascending by code units. */
  predicate Ascending(members: seq<Member>) {
    |members| <= 1 || (Less(members[0].units, members[1].units) && Ascending(members[1..]))
  }

  lemma {:induction false} InsertContents(m: Member, sorted: seq<Member>)
    ensures multiset(Insert(m, sorted)) == multiset(sorted) + multiset{m}
  {
    if sorted != [] {
      assert sorted == [sorted[0]] + sorted[1..];
      InsertContents(m, sorted[1..]);
    }
  }

  lemma {:induction false} SortContents(members: seq<Member>)
    ensures multiset(SortMembers(members)) == multiset(members)
    ensures forall m :: m in SortMembers(members) <==> m in members
  {
    if members != [] {
      assert members == [members[0]] + members[1..];
      SortContents(members[1..]);
      InsertContents(members[0], SortMembers(members[1..]));
    }
    forall m ensures m in SortMembers(members) <==> m in members {
      assert m in SortMembers(members) <==> m in multiset(SortMembers(members));
      assert m in members <==> m in multiset(members);
    }
  }

  lemma {:induction false} InsertAscending(m: Member, sorted: seq<Member>)
    requires Ascending(sorted) && forall x | x in sorted :: x.units != m.units
    ensures Ascending(Insert(m, sorted))
  {
    if sorted != [] {
      LessTotal(sorted[0].units, m.units);
      if Less(sorted[0].units, m.units) {
        InsertAscending(m, sorted[1..]);
        var t := Insert(m, sorted[1..]);
        assert t[0] == m || t[0] == sorted[1];
        assert Insert(m, sorted) == [sorted[0]] + t;
      }
    }
  }

  lemma {:induction false} FreshKey(members: seq<Member>, depth: nat, seen: set<seq<int>>, m: Member)
    requires WfMembers(members, depth, seen) && m in members
    ensures Key(m) !in seen && WfMember(m, depth)
  {
    hide WfMember;
    if m != members[0] { FreshKey(members[1..], depth, seen + {Key(members[0])}, m); }
  }

  lemma {:induction false} SortAscending(members: seq<Member>, depth: nat, seen: set<seq<int>>)
    requires WfMembers(members, depth, seen)
    ensures Ascending(SortMembers(members))
  {
    hide WfMember;
    if members != [] {
      var m, rest := members[0], members[1..];
      SortAscending(rest, depth, seen + {Key(m)});
      SortContents(rest);
      forall x | x in SortMembers(rest) ensures x.units != m.units {
        FreshKey(rest, depth, seen + {Key(m)}, x);
      }
      InsertAscending(m, SortMembers(rest));
    }
  }

  lemma {:induction false} HeadIsLeast(members: seq<Member>, m: Member)
    requires Ascending(members) && m in members
    ensures m == members[0] || Less(members[0].units, m.units)
  {
    if m != members[0] {
      assert m in members[1..];
      HeadIsLeast(members[1..], m);
      if m != members[1] { LessTransitive(members[0].units, members[1].units, m.units); }
    }
  }

  lemma TailIsGreater(members: seq<Member>, m: Member)
    requires Ascending(members) && members != [] && m in members[1..]
    ensures Less(members[0].units, m.units)
  {
    HeadIsLeast(members[1..], m);
    if m != members[1] { LessTransitive(members[0].units, members[1].units, m.units); }
  }

  predicate SameElements(a: seq<Member>, b: seq<Member>) {
    (forall m | m in a :: m in b) && (forall m | m in b :: m in a)
  }

  /** There is only one ascending order of the same members. */
  lemma {:induction false} AscendingUnique(a: seq<Member>, b: seq<Member>)
    requires Ascending(a) && Ascending(b) && SameElements(a, b)
    ensures a == b
  {
    assert (a != [] ==> a[0] in b) && (b != [] ==> b[0] in a);
    if a != [] && b != [] {
      HeadIsLeast(b, a[0]);
      HeadIsLeast(a, b[0]);
      LessTotal(a[0].units, b[0].units);
      assert a[0] == b[0];
      forall m | m in a[1..] ensures m in b[1..] {
        TailIsGreater(a, m);
        LessTotal(m.units, m.units);
        assert m in a && m in b && m != b[0];
      }
      forall m | m in b[1..] ensures m in a[1..] {
        TailIsGreater(b, m);
        LessTotal(m.units, m.units);
        assert m in b && m in a && m != a[0];
      }
      AscendingUnique(a[1..], b[1..]);
      assert a == [a[0]] + a[1..] && b == [b[0]] + b[1..];
    }
  }

  // ----- canonical text

  /** canon, in the source's order: sort the members, then emit each. */
  function Canon(v: Value): string
    decreases v, 0
  {
    match v
    case Scalar(_, raw, _) => raw
    case Arr(items) => "[" + CanonItems(items)
    case Obj(members) =>
      SortContents(members);
      "{" + CanonMembers(SortMembers(members), v)
  }

  function CanonItems(items: seq<Value>): string
    decreases items, 1
  {
    if items == [] then "]"
    else if |items| == 1 then Canon(items[0]) + "]"
    else Canon(items[0]) + "," + CanonItems(items[1..])
  }

  function CanonMembers(members: seq<Member>, ghost of: Value): string
    requires forall m | m in members :: m.val < of
    decreases of, 0, |members|
  {
    if members == [] then "}"
    else
      assert members[0] in members;
      var m := members[0];
      var text := m.keyRaw + ":" + Canon(m.val);
      if |members| == 1 then text + "}" else text + "," + CanonMembers(members[1..], of)
  }

  /** The same value with the members of every object in canonical order. */
  function SortDeep(v: Value): Value {
    match v
    case Scalar(_, _, _) => v
    case Arr(items) => Arr(SortItems(items))
    case Obj(members) => Obj(SortMembers(SortValues(members)))
  }

  function SortItems(items: seq<Value>): seq<Value> {
    if items == [] then [] else [SortDeep(items[0])] + SortItems(items[1..])
  }

  function SortMember(m: Member): Member { m.(val := SortDeep(m.val)) }

  function SortValues(members: seq<Member>): (r: seq<Member>)
    ensures |r| == |members|
  {
    if members == [] then [] else [SortMember(members[0])] + SortValues(members[1..])
  }

  lemma {:induction false} InsertCommutes(m: Member, sorted: seq<Member>)
    ensures SortValues(Insert(m, sorted)) == Insert(SortMember(m), SortValues(sorted))
  {
    if sorted != [] && Less(sorted[0].units, m.units) {
      InsertCommutes(m, sorted[1..]);
      assert Insert(m, sorted)[1..] == Insert(m, sorted[1..]);
    } else {
      assert ([m] + sorted)[1..] == sorted;
    }
  }

  lemma {:induction false} SortCommutes(members: seq<Member>)
    ensures SortMembers(SortValues(members)) == SortValues(SortMembers(members))
  {
    if members != [] {
      SortCommutes(members[1..]);
      InsertCommutes(members[0], SortMembers(members[1..]));
    }
  }

  /** Canonical text is the printed form of the sorted value. */
  lemma {:induction false} CanonIsPrint(v: Value)
    ensures Canon(v) == Print(SortDeep(v))
    decreases v, 0
  {
    match v
    case Scalar(_, _, _) =>
    case Arr(items) => CanonItemsIsPrint(items);
    case Obj(members) =>
      SortContents(members);
      CanonMembersIsPrint(SortMembers(members), v);
      SortCommutes(members);
  }

  lemma {:induction false} CanonItemsIsPrint(items: seq<Value>)
    ensures CanonItems(items) == PrintItems(SortItems(items))
    decreases items, 1
  {
    if items != [] {
      CanonIsPrint(items[0]);
      CanonItemsIsPrint(items[1..]);
    }
  }

  lemma {:induction false} CanonMembersIsPrint(members: seq<Member>, v: Value)
    requires forall m | m in members :: m.val < v
    ensures CanonMembers(members, v) == PrintMembers(SortValues(members))
    decreases v, 0, |members|
  {
    if members != [] {
      assert members[0] in members;
      CanonIsPrint(members[0].val);
      CanonMembersIsPrint(members[1..], v);
    }
  }

  // ----- sorting keeps well-formedness

  lemma {:induction false} InsertWf(m: Member, sorted: seq<Member>, depth: nat, seen: set<seq<int>>)
    requires WfMember(m, depth) && Key(m) !in seen && WfMembers(sorted, depth, seen + {Key(m)})
    ensures WfMembers(Insert(m, sorted), depth, seen)
    decreases sorted
  {
    hide WfMember;
    if sorted != [] && Less(sorted[0].units, m.units) {
      var h := sorted[0];
      assert seen + {Key(m)} + {Key(h)} == seen + {Key(h)} + {Key(m)};
      InsertWf(m, sorted[1..], depth, seen + {Key(h)});
      assert Insert(m, sorted)[1..] == Insert(m, sorted[1..]);
    } else {
      assert ([m] + sorted)[1..] == sorted;
    }
  }

  lemma {:induction false} SortWf(members: seq<Member>, depth: nat, seen: set<seq<int>>)
    requires WfMembers(members, depth, seen)
    ensures WfMembers(SortMembers(members), depth, seen)
    decreases members
  {
    hide WfMember;
    if members != [] {
      SortWf(members[1..], depth, seen + {Key(members[0])});
      InsertWf(members[0], SortMembers(members[1..]), depth, seen);
    }
  }

  lemma {:induction false} SortDeepWf(v: Value, depth: nat)
    requires Wf(v, depth)
    ensures Wf(SortDeep(v), depth)
    decreases v, 0
  {
    match v
    case Scalar(_, _, _) =>
    case Arr(items) => SortItemsWf(items, depth + 1);
    case Obj(members) =>
      SortValuesWf(members, depth + 1, {});
      SortWf(SortValues(members), depth + 1, {});
  }

  lemma {:induction false} SortItemsWf(items: seq<Value>, depth: nat)
    requires WfItems(items, depth)
    ensures WfItems(SortItems(items), depth)
    decreases items, 1
  {
    hide Wf;
    if items != [] {
      SortDeepWf(items[0], depth);
      SortItemsWf(items[1..], depth);
    }
  }

  lemma {:induction false} SortValuesWf(members: seq<Member>, depth: nat, seen: set<seq<int>>)
    requires WfMembers(members, depth, seen)
    ensures WfMembers(SortValues(members), depth, seen)
    decreases members, 1
  {
    hide Wf, ParseString;
    if members != [] {
      SortDeepWf(members[0].val, depth);
      SortValuesWf(members[1..], depth, seen + {Key(members[0])});
    }
  }

  // ----- equality up to member order

  /** The same value except for the order of members, at any depth. */
  ghost predicate SameUpToOrder(v: Value, w: Value)
    decreases v
  {
    match (v, w)
    case (Scalar(_, _, _), Scalar(_, _, _)) => v == w
    case (Arr(a), Arr(b)) => |a| == |b| && forall i | 0 <= i < |a| :: SameUpToOrder(a[i], b[i])
    case (Obj(a), Obj(b)) =>
      && (forall i | 0 <= i < |a| :: HasPartner(a[i], b))
      && (forall j | 0 <= j < |b| :: IsPartner(a, b[j]))
    case _ => false
  }

  ghost predicate HasPartner(m: Member, b: seq<Member>)
    decreases m, 1
  {
    exists j :: 0 <= j < |b| && SameMember(m, b[j])
  }

  ghost predicate IsPartner(a: seq<Member>, n: Member)
    decreases a, 1
  {
    exists i :: 0 <= i < |a| && SameMember(a[i], n)
  }

  ghost predicate SameMember(m: Member, n: Member)
    decreases m, 0
  {
    m.keyRaw == n.keyRaw && m.units == n.units && SameUpToOrder(m.val, n.val)
  }

  lemma {:induction false} SortItemsAt(items: seq<Value>)
    ensures |SortItems(items)| == |items|
    ensures forall i | 0 <= i < |items| :: SortItems(items)[i] == SortDeep(items[i])
  {
    if items != [] { SortItemsAt(items[1..]); }
  }

  lemma {:induction false} SortValuesAt(members: seq<Member>)
    ensures forall i | 0 <= i < |members| :: SortValues(members)[i] == SortMember(members[i])
  {
    if members != [] { SortValuesAt(members[1..]); }
  }

  /** Values that agree up to member order have one sorted form. */
  lemma {:induction false} SameSortsEqual(v: Value, w: Value, depth: nat)
    requires Wf(v, depth) && Wf(w, depth) && SameUpToOrder(v, w)
    ensures SortDeep(v) == SortDeep(w)
    decreases v, 2
  {
    hide WfMembers;
    match (v, w)
    case (Scalar(_, _, _), Scalar(_, _, _)) =>
    case (Arr(a), Arr(b)) =>
      SortItemsAt(a);
      SortItemsAt(b);
      forall i | 0 <= i < |a| ensures SortDeep(a[i]) == SortDeep(b[i]) {
        WfItemAt(a, depth + 1, i);
        WfItemAt(b, depth + 1, i);
        SameSortsEqual(a[i], b[i], depth + 1);
      }
      assert SortItems(a) == SortItems(b);
    case (Obj(a), Obj(b)) =>
      SameMembersSortEqual(a, b, v, w, depth);
  }

  lemma {:induction false} SameMembersSortEqual(a: seq<Member>, b: seq<Member>, v: Value, w: Value, depth: nat)
    requires v == Obj(a) && w == Obj(b) && Wf(v, depth) && Wf(w, depth) && SameUpToOrder(v, w)
    ensures SortMembers(SortValues(a)) == SortMembers(SortValues(b))
    decreases v, 1
  {
    hide WfMembers, SameMember;
    var x, y := SortValues(a), SortValues(b);
    SortValuesAt(a);
    SortValuesAt(b);
    forall m | m in x ensures m in y {
      var i :| 0 <= i < |x| && x[i] == m;
      assert HasPartner(a[i], b);
      var j :| 0 <= j < |b| && SameMember(a[i], b[j]);
      SameMemberSortsEqual(a, i, b, j, v, depth + 1);
      assert y[j] == m;
    }
    forall m | m in y ensures m in x {
      var j :| 0 <= j < |y| && y[j] == m;
      assert IsPartner(a, b[j]);
      var i :| 0 <= i < |a| && SameMember(a[i], b[j]);
      SameMemberSortsEqual(a, i, b, j, v, depth + 1);
      assert x[i] == m;
    }
    SortedAlike(a, depth + 1);
    SortedAlike(b, depth + 1);
    AscendingUnique(SortMembers(x), SortMembers(y));
  }

  lemma {:induction false} SameMemberSortsEqual(a: seq<Member>, i: nat, b: seq<Member>, j: nat, v: Value, depth: nat)
    requires v == Obj(a) && WfMembers(a, depth, {}) && WfMembers(b, depth, {})
    requires i < |a| && j < |b| && SameMember(a[i], b[j])
    ensures SortMember(a[i]) == SortMember(b[j])
    decreases v, 0
  {
    FreshKey(a, depth, {}, a[i]);
    FreshKey(b, depth, {}, b[j]);
    assert a[i].val < v;
    SameSortsEqual(a[i].val, b[j].val, depth);
  }

  lemma SortedAlike(a: seq<Member>, depth: nat)
    requires WfMembers(a, depth, {})
    ensures Ascending(SortMembers(SortValues(a)))
    ensures forall m :: m in SortMembers(SortValues(a)) <==> m in SortValues(a)
  {
    hide WfMembers;
    SortValuesWf(a, depth, {});
    SortAscending(SortValues(a), depth, {});
    SortContents(SortValues(a));
  }

  lemma {:induction false} WfItemAt(items: seq<Value>, depth: nat, i: nat)
    requires WfItems(items, depth) && i < |items|
    ensures Wf(items[i], depth)
  {
    hide Wf;
    if i > 0 { WfItemAt(items[1..], depth, i - 1); }
  }

  /** Values with one sorted form agree up to member order. */
  lemma {:induction false} EqualSortsSame(v: Value, w: Value)
    requires SortDeep(v) == SortDeep(w)
    ensures SameUpToOrder(v, w)
    decreases v
  {
    match (v, w)
    case (Scalar(_, _, _), _) =>
    case (Arr(a), Arr(b)) =>
      SortItemsAt(a);
      SortItemsAt(b);
      forall i | 0 <= i < |a| ensures SameUpToOrder(a[i], b[i]) {
        EqualSortsSame(a[i], b[i]);
      }
    case (Obj(a), Obj(b)) =>
      forall i | 0 <= i < |a| ensures HasPartner(a[i], b) {
        assert a[i].val < v;
        var j := PartnerOf(a, i, b);
        EqualSortsSame(a[i].val, b[j].val);
        assert SameMember(a[i], b[j]);
      }
      forall j | 0 <= j < |b| ensures IsPartner(a, b[j]) {
        var i := PartnerOf(b, j, a);
        assert a[i].val < v;
        EqualSortsSame(a[i].val, b[j].val);
        assert SameMember(a[i], b[j]);
      }
    case _ =>
  }

  lemma PartnerOf(a: seq<Member>, i: nat, b: seq<Member>) returns (j: nat)
    requires i < |a| && SortMembers(SortValues(a)) == SortMembers(SortValues(b))
    ensures j < |b| && SortMember(a[i]) == SortMember(b[j])
  {
    var x, y := SortValues(a), SortValues(b);
    SortValuesAt(a);
    SortValuesAt(b);
    SortContents(x);
    SortContents(y);
    assert x[i] in SortMembers(x) && x[i] in y;
    j :| 0 <= j < |y| && y[j] == x[i];
  }

  lemma {:induction false} SortValuesIdentity(members: seq<Member>)
    requires forall i | 0 <= i < |members| :: SortMember(members[i]) == members[i]
    ensures SortValues(members) == members
  {
    if members != [] {
      forall i | 0 <= i < |members[1..]| ensures SortMember(members[1..][i]) == members[1..][i] {
        assert members[1..][i] == members[i + 1];
      }
      SortValuesIdentity(members[1..]);
      assert members == [members[0]] + members[1..];
    }
  }

  lemma {:induction false} SortDeepIdempotent(v: Value, depth: nat)
    requires Wf(v, depth)
    ensures SortDeep(SortDeep(v)) == SortDeep(v)
    decreases v
  {
    match v
    case Scalar(_, _, _) =>
    case Arr(items) =>
      SortItemsAt(items);
      SortItemsAt(SortItems(items));
      forall i | 0 <= i < |items| ensures SortDeep(SortDeep(items[i])) == SortDeep(items[i]) {
        WfItemAt(items, depth + 1, i);
        SortDeepIdempotent(items[i], depth + 1);
      }
      assert SortItems(SortItems(items)) == SortItems(items);
    case Obj(members) =>
      var x := SortValues(members);
      var s := SortMembers(x);
      SortValuesAt(members);
      SortContents(x);
      forall i | 0 <= i < |s| ensures SortMember(s[i]) == s[i] {
        assert s[i] in x;
        var j :| 0 <= j < |x| && x[j] == s[i];
        FreshKey(members, depth + 1, {}, members[j]);
        SortDeepIdempotent(members[j].val, depth + 1);
      }
      SortValuesIdentity(s);
      SortValuesWf(members, depth + 1, {});
      SortWf(x, depth + 1, {});
      SortAscending(x, depth + 1, {});
      SortAscending(s, depth + 1, {});
      SortContents(s);
      AscendingUnique(SortMembers(s), s);
  }

  // ----- the main results

  /** Parsing canonical text gives the value back with its members sorted at every depth and every
      lexeme unchanged. */
  lemma CanonRoundTrip(v: Value)
    requires Wf(v, 0)
    ensures ParseLine(Canon(v)) == Ok(SortDeep(v), |Canon(v)|)
    ensures SameUpToOrder(v, SortDeep(v))
  {
    CanonIsPrint(v);
    SortDeepWf(v, 0);
    PrintRoundTrip(SortDeep(v));
    SortDeepIdempotent(v, 0);
    EqualSortsSame(v, SortDeep(v));
  }

  /** The same, from a line the tokenizer accepts; and canonical text is its own canonical text. */
  lemma CanonOfLine(line: string)
    requires ParseLine(line).Ok?
    ensures var v := ParseLine(line).value;
            var again := ParseLine(Canon(v));
            again.Ok? && again.value == SortDeep(v) && Canon(again.value) == Canon(v)
  {
    var v := ParseLine(line).value;
    ParsedLineWf(line);
    CanonRoundTrip(v);
    SortDeepIdempotent(v, 0);
    CanonIsPrint(v);
    CanonIsPrint(SortDeep(v));
  }

  /** Two lines have the same canonical text exactly when they differ by member order alone. */
  lemma CanonInjective(a: string, b: string)
    requires ParseLine(a).Ok? && ParseLine(b).Ok?
    ensures var (v, w) := (ParseLine(a).value, ParseLine(b).value);
            Canon(v) == Canon(w) <==> SameUpToOrder(v, w)
  {
    var v, w := ParseLine(a).value, ParseLine(b).value;
    ParsedLineWf(a);
    ParsedLineWf(b);
    if Canon(v) == Canon(w) {
      CanonRoundTrip(v);
      CanonRoundTrip(w);
      EqualSortsSame(v, w);
    }
    if SameUpToOrder(v, w) {
      SameSortsEqual(v, w, 0);
      CanonIsPrint(v);
      CanonIsPrint(w);
    }
  }
}
