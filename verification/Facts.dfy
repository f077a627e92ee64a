/** Fact resolution (internal/facts/engine.go): resolver samples and inputs form a document,
    and each mapping of the action reads one fact out of it. */
module Facts {
  import opened Text
  import opened Json

  datatype Resolver = Resolver(name: string, sample: Json)

  datatype Mapping = Mapping(name: string, path: string, factKey: string, transform: string,
                             args: seq<Json>, required: bool)

  /** The libraries the engine calls: JMESPath search (none on error), `%v` printing,
      strconv.ParseFloat, and the two transforms that read the wall clock. */
  datatype Lib = Lib(search: (string, Json) -> Option<Json>, show: Printer, parse: string -> Option<real>,
                     daysBetween: (Json, Json, int) -> Option<Json>, nowText: int -> string)

  // ---------------------------------------------------------------- transforms

  function ToFloat(v: Json): real { if v.JNum? then v.n else 0.0 }

  function Sum(items: seq<Json>): real {
    if items == [] then 0.0 else Sum(items[..|items| - 1]) + ToFloat(items[|items| - 1])
  }

  predicate IsZero(v: Json) {
    match v
    case JNull => true
    case JStr(s) => TrimSpace(s) == ""
    case JNum(n) => n == 0.0
    case JArr(items) => items == []
    case JObj(fields) => fields == map[]
    case JBool(_) => false
  }

  function ToArray(v: Json): seq<Json> {
    match v case JArr(items) => items case JNull => [] case _ => [v]
  }

  /** strings.Split(s, "==") */
  function SplitEquals(s: string, from: nat): seq<string>
    requires from <= |s|
    decreases |s| - from
  {
    if from + 2 > |s| then [s]
    else if s[from] == '=' && s[from + 1] == '=' then
      [s[..from]] + SplitEquals(s[from + 2..], 0)
    else SplitEquals(s, from + 1)
  }

  predicate IsQuote(c: char) { c == '\'' || c == '"' }

  /** `field == 'value'` on an object */
  predicate Matches(show: Printer, v: Json, pred: string) {
    var parts := SplitEquals(pred, 0);
    |parts| == 2 && v.JObj? &&
    var left := TrimSpace(parts[0]);
    left in v.fields && show(v.fields[left]) == Trim(IsQuote, TrimSpace(parts[1]))
  }

  function FirstNonZero(args: seq<Json>): Option<Json> {
    if args == [] then None else if !IsZero(args[0]) then Some(args[0]) else FirstNonZero(args[1..])
  }

  function TextOf(v: Json): string { if v.JStr? then v.s else "" }

  predicate NonEmpty(v: Json) { if v.JArr? then v.items != [] else v != JNull }

  predicate SomeMatch(show: Printer, src: seq<Json>, pred: string) {
    exists i :: 0 <= i < |src| && Matches(show, src[i], pred)
  }

  predicate AllMatch(show: Printer, src: seq<Json>, pred: string) {
    src != [] && forall i :: 0 <= i < |src| ==> Matches(show, src[i], pred)
  }

  function ToNumber(lib: Lib, v: Json): real {
    if v.JStr? then lib.parse(TrimSpace(v.s)).GetOr(0.0) else ToFloat(v)
  }

  /** What each transform yields; none is an error. */
  function Transformed(lib: Lib, name: string, v: Json, args: seq<Json>, now: int): Option<Json> {
    match name
    case "count" => Some(JNum(if v.JArr? then |v.items| as real else 0.0))
    case "sum" => Some(JNum(if v.JArr? then Sum(v.items) else ToFloat(v)))
    case "days_between" =>
      if |args| == 2 then lib.daysBetween(args[0], args[1], now)
      else if v.JArr? && |v.items| == 2 then lib.daysBetween(v.items[0], v.items[1], now)
      else None
    case "now" => Some(JStr(lib.nowText(now)))
    case "any" =>
      Some(JBool(if |args| == 2 then SomeMatch(lib.show, ToArray(args[0]), TextOf(args[1])) else NonEmpty(v)))
    case "all" =>
      Some(JBool(if |args| == 2 then AllMatch(lib.show, ToArray(args[0]), TextOf(args[1])) else NonEmpty(v)))
    case "exists" => Some(JBool(v != JNull))
    case "first" => Some(if v.JArr? then if v.items != [] then v.items[0] else JNull else v)
    case "to_number" => Some(JNum(ToNumber(lib, v)))
    case "to_string" => Some(JStr(lib.show(v)))
    case "coalesce" => Some(FirstNonZero(args).GetOr(v))
    case _ => Some(v)
  }

  method SumOf(items: seq<Json>) returns (s: real)
    ensures s == Sum(items)
  {
    s := 0.0;
    var i := 0;
    while i < |items|
      invariant 0 <= i <= |items|
      invariant s == Sum(items[..i])
    {
      assert items[..i + 1][..i] == items[..i];
      s := s + ToFloat(items[i]);
      i := i + 1;
    }
    assert items[..i] == items;
  }

  method AnyOf(show: Printer, src: seq<Json>, pred: string) returns (found: bool)
    ensures found == SomeMatch(show, src, pred)
  {
    hide Matches;
    var i := 0;
    while i < |src|
      invariant 0 <= i <= |src|
      invariant forall j :: 0 <= j < i ==> !Matches(show, src[j], pred)
    {
      if Matches(show, src[i], pred) {
        return true;
      }
      i := i + 1;
    }
    return false;
  }

  method AllOf(show: Printer, src: seq<Json>, pred: string) returns (all: bool)
    ensures all == AllMatch(show, src, pred)
  {
    hide Matches;
    if |src| == 0 {
      return false;
    }
    var i := 0;
    while i < |src|
      invariant 0 <= i <= |src|
      invariant forall j :: 0 <= j < i ==> Matches(show, src[j], pred)
    {
      if !Matches(show, src[i], pred) {
        return false;
      }
      i := i + 1;
    }
    return true;
  }

  method Coalesce(args: seq<Json>, v: Json) returns (r: Json)
    ensures r == FirstNonZero(args).GetOr(v)
  {
    hide IsZero;
    var i := 0;
    while i < |args|
      invariant 0 <= i <= |args|
      invariant FirstNonZero(args) == FirstNonZero(args[i..])
    {
      assert args[i..][0] == args[i] && args[i..][1..] == args[i + 1..];
      if !IsZero(args[i]) {
        return args[i];
      }
      i := i + 1;
    }
    return v;
  }

  /** `applyTransform`, its loops in the methods above */
  method ApplyTransform(lib: Lib, name: string, v: Json, args: seq<Json>, now: int) returns (r: Option<Json>)
    ensures r == Transformed(lib, name, v, args, now)
  {
    hide SomeMatch, AllMatch, FirstNonZero, Sum, IsZero, ToNumber, ToArray, TextOf;
    match name {
      case "count" =>
        var n := 0;
        if v.JArr? {
          n := |v.items|;
        }
        r := Some(JNum(n as real));
      case "sum" =>
        var s := ToFloat(v);
        if v.JArr? {
          s := SumOf(v.items);
        }
        r := Some(JNum(s));
      case "days_between" =>
        r := None;
        if |args| == 2 {
          r := lib.daysBetween(args[0], args[1], now);
        } else if v.JArr? && |v.items| == 2 {
          r := lib.daysBetween(v.items[0], v.items[1], now);
        }
      case "now" =>
        r := Some(JStr(lib.nowText(now)));
      case "any" =>
        var found := NonEmpty(v);
        if |args| == 2 {
          found := AnyOf(lib.show, ToArray(args[0]), TextOf(args[1]));
        }
        r := Some(JBool(found));
      case "all" =>
        var all := NonEmpty(v);
        if |args| == 2 {
          all := AllOf(lib.show, ToArray(args[0]), TextOf(args[1]));
        }
        r := Some(JBool(all));
      case "exists" =>
        r := Some(JBool(v != JNull));
      case "first" =>
        r := Some(v);
        if v.JArr? {
          r := Some(if v.items != [] then v.items[0] else JNull);
        }
      case "to_number" =>
        r := Some(JNum(ToNumber(lib, v)));
      case "to_string" =>
        r := Some(JStr(lib.show(v)));
      case "coalesce" =>
        var c := Coalesce(args, v);
        r := Some(c);
      case _ =>
        r := Some(v);
    }
  }

  /** The transforms whose result depends on when they run */
  predicate Clocked(m: Mapping) { m.transform == "now" || m.transform == "days_between" }

  /** The value a mapping reads, none when its search or its transform fails */
  function Value(lib: Lib, doc: Json, now: int, m: Mapping): Option<Json> {
    match lib.search(m.path, doc)
    case None => None
    case Some(v) => if m.transform == "" then Some(v) else Transformed(lib, m.transform, v, m.args, now)
  }

  lemma UnclockedValue(lib: Lib, doc: Json, now: int, later: int, m: Mapping)
    requires !Clocked(m)
    ensures Value(lib, doc, now, m) == Value(lib, doc, later, m)
  {
  }

  // ---------------------------------------------------------------- last write wins

  datatype Write = Write(key: string, value: Option<Json>)

  /** A map filled by one write after another; a write without a value is skipped. */
  function LastWins<T>(w: T -> Write, xs: seq<T>): map<string, Json> {
    if xs == [] then map[]
    else
      var m := LastWins(w, xs[..|xs| - 1]);
      var last := w(xs[|xs| - 1]);
      if last.value.Some? then m[last.key := last.value.value] else m
  }

  /** Writes to the same key carry the same value. */
  ghost predicate Consistent<T(!new)>(w: T -> Write, xs: seq<T>) {
    forall x, y :: x in xs && y in xs && w(x).value.Some? && w(y).value.Some? && w(x).key == w(y).key ==>
      w(x).value == w(y).value
  }

  lemma {:induction false} LastWinsComesFromWrite<T>(w: T -> Write, xs: seq<T>, k: string)
    ensures k in LastWins(w, xs) ==> exists x :: x in xs && w(x) == Write(k, Some(LastWins(w, xs)[k]))
    ensures forall x :: x in xs && w(x).value.Some? ==> w(x).key in LastWins(w, xs)
  {
    if xs != [] {
      var n := |xs| - 1;
      LastWinsComesFromWrite(w, xs[..n], k);
      assert xs == xs[..n] + [xs[n]];
      if k in LastWins(w, xs) && !(w(xs[n]).value.Some? && w(xs[n]).key == k) {
        var x :| x in xs[..n] && w(x) == Write(k, Some(LastWins(w, xs[..n])[k]));
        assert x in xs;
      }
    }
  }

  /** Two lists with the same elements leave the same map when their writes do not conflict. */
  lemma ConsistentOrderFree<T(!new)>(w: T -> Write, xs: seq<T>, ys: seq<T>)
    requires Consistent(w, xs)
    requires forall x :: x in xs <==> x in ys
    ensures LastWins(w, xs) == LastWins(w, ys)
  {
    var a, b := LastWins(w, xs), LastWins(w, ys);
    forall k ensures k in a <==> k in b
             ensures k in a && k in b ==> a[k] == b[k]
    {
      LastWinsComesFromWrite(w, xs, k);
      LastWinsComesFromWrite(w, ys, k);
    }
    assert a.Keys == b.Keys;
  }

  /** The same elements with position `i` moved to the end */
  function MovedLast<T>(xs: seq<T>, i: nat): seq<T>
    requires i < |xs|
  {
    xs[..i] + xs[i + 1..] + [xs[i]]
  }

  lemma MovedLastWins<T(!new)>(w: T -> Write, xs: seq<T>, i: nat)
    requires i < |xs| && w(xs[i]).value.Some?
    ensures multiset(MovedLast(xs, i)) == multiset(xs)
    ensures w(xs[i]).key in LastWins(w, MovedLast(xs, i))
    ensures LastWins(w, MovedLast(xs, i))[w(xs[i]).key] == w(xs[i]).value.value
  {
    assert xs == xs[..i] + [xs[i]] + xs[i + 1..];
    var ys := MovedLast(xs, i);
    assert ys[..|ys| - 1] == xs[..i] + xs[i + 1..];
  }

  lemma {:induction false} SameMultisetSameElements<T>(xs: seq<T>, ys: seq<T>)
    requires multiset(xs) == multiset(ys)
    ensures forall x :: x in xs <==> x in ys
  {
    forall x ensures x in xs <==> x in ys {
      assert x in xs <==> x in multiset(xs);
      assert x in ys <==> x in multiset(ys);
    }
  }

  /** Every order gives the same map exactly when no two writes conflict. */
  lemma OrderFreeIffConsistent<T(!new)>(w: T -> Write, xs: seq<T>)
    ensures (forall ys :: multiset(ys) == multiset(xs) ==> LastWins(w, ys) == LastWins(w, xs)) <==> Consistent(w, xs)
  {
    if Consistent(w, xs) {
      forall ys | multiset(ys) == multiset(xs) ensures LastWins(w, ys) == LastWins(w, xs) {
        SameMultisetSameElements(xs, ys);
        ConsistentOrderFree(w, xs, ys);
      }
    } else {
      var x, y :| x in xs && y in xs && w(x).value.Some? && w(y).value.Some? && w(x).key == w(y).key
                  && w(x).value != w(y).value;
      var i :| 0 <= i < |xs| && xs[i] == x;
      var j :| 0 <= j < |xs| && xs[j] == y;
      MovedLastWins(w, xs, i);
      MovedLastWins(w, xs, j);
      assert LastWins(w, MovedLast(xs, i)) != LastWins(w, MovedLast(xs, j));
    }
  }

  // ---------------------------------------------------------------- resolving facts

  function ResolverWrite(): Resolver -> Write { (r: Resolver) => Write(r.name, Some(r.sample)) }

  function MappingWrite(lib: Lib, doc: Json, now: int): Mapping -> Write {
    (m: Mapping) => Write(m.factKey, Value(lib, doc, now, m))
  }

  /** { inputs, resolvers: { name: sample } } */
  function Document(rs: seq<Resolver>, inputs: Json): Json {
    JObj(map["inputs" := inputs, "resolvers" := JObj(LastWins(ResolverWrite(), rs))])
  }

  predicate RequiredFails(lib: Lib, doc: Json, now: int, ms: seq<Mapping>) {
    exists i :: 0 <= i < |ms| && ms[i].required && Value(lib, doc, now, ms[i]).None?
  }

  /** The facts, or null when a required mapping fails */
  function Resolved(lib: Lib, rs: seq<Resolver>, ms: seq<Mapping>, inputs: Json, now: int): Json {
    var doc := Document(rs, inputs);
    if RequiredFails(lib, doc, now, ms) then JNull else JObj(LastWins(MappingWrite(lib, doc, now), ms))
  }

  /** `ResolveFacts` on the rows it read */
  method ResolveFacts(lib: Lib, rs: seq<Resolver>, ms: seq<Mapping>, inputs: Json, now: int) returns (facts: Json)
    ensures facts == Resolved(lib, rs, ms, inputs, now)
  {
    hide Transformed;
    var resMap: map<string, Json> := map[];
    var i := 0;
    while i < |rs|
      invariant 0 <= i <= |rs|
      invariant resMap == LastWins(ResolverWrite(), rs[..i])
    {
      assert rs[..i + 1][..i] == rs[..i];
      resMap := resMap[rs[i].name := rs[i].sample];
      i := i + 1;
    }
    assert rs[..i] == rs;
    var doc := JObj(map["inputs" := inputs, "resolvers" := JObj(resMap)]);
    assert doc == Document(rs, inputs);
    var out: map<string, Json> := map[];
    var w := MappingWrite(lib, doc, now);
    i := 0;
    while i < |ms|
      invariant 0 <= i <= |ms|
      invariant forall j :: 0 <= j < i ==> !(ms[j].required && Value(lib, doc, now, ms[j]).None?)
      invariant out == LastWins(w, ms[..i])
    {
      assert ms[..i + 1][..i] == ms[..i];
      var m := ms[i];
      var val := lib.search(m.path, doc);
      if val.Some? && m.transform != "" {
        val := ApplyTransform(lib, m.transform, val.value, m.args, now);
      }
      assert val == Value(lib, doc, now, m);
      if val.None? {
        if m.required {
          return JNull;
        }
      } else {
        out := out[m.factKey := val.value];
      }
      i := i + 1;
    }
    assert ms[..i] == ms;
    return JObj(out);
  }

  predicate DistinctNames(rs: set<Resolver>) {
    forall a, b :: a in rs && b in rs && a.name == b.name ==> a == b
  }

  predicate DistinctFactKeys(ms: set<Mapping>) {
    forall a, b :: a in ms && b in ms && a.factKey == b.factKey ==> a == b
  }

  function Elements<T>(xs: seq<T>): set<T> { set x | x in xs }

  lemma DocumentOrderFree(rs: seq<Resolver>, rs': seq<Resolver>, inputs: Json)
    requires Elements(rs) == Elements(rs') && DistinctNames(Elements(rs))
    ensures Document(rs, inputs) == Document(rs', inputs)
  {
    assert forall r :: r in rs <==> r in Elements(rs);
    assert forall r :: r in rs' <==> r in Elements(rs');
    ConsistentOrderFree(ResolverWrite(), rs, rs');
  }

  /** Resolution is a function of the rows as sets: the order they are read back in does not
      matter, nor does the time when no clocked transform is used, and a failing required
      mapping gives null facts in every order. */
  lemma ResolvedOrderFree(lib: Lib, rs: seq<Resolver>, rs': seq<Resolver>, ms: seq<Mapping>, ms': seq<Mapping>,
                          inputs: Json, now: int, later: int)
    requires Elements(rs) == Elements(rs') && DistinctNames(Elements(rs))
    requires Elements(ms) == Elements(ms') && DistinctFactKeys(Elements(ms))
    requires forall m :: m in ms ==> !Clocked(m)
    ensures Resolved(lib, rs, ms, inputs, now) == Resolved(lib, rs', ms', inputs, later)
  {
    hide Value;
    DocumentOrderFree(rs, rs', inputs);
    var doc := Document(rs, inputs);
    assert forall m :: m in ms <==> m in Elements(ms);
    assert forall m :: m in ms' <==> m in Elements(ms');
    forall m | m in ms ensures Value(lib, doc, now, m) == Value(lib, doc, later, m) {
      UnclockedValue(lib, doc, now, later, m);
    }
    assert RequiredFails(lib, doc, now, ms) <==> RequiredFails(lib, doc, later, ms) by {
      assert forall i :: 0 <= i < |ms| ==> ms[i] in ms;
    }
    SameFailures(lib, doc, later, ms, ms');
    SameFailures(lib, doc, later, ms', ms);
    ConsistentOrderFree(MappingWrite(lib, doc, now), ms, ms');
    SameWrites(MappingWrite(lib, doc, now), MappingWrite(lib, doc, later), ms');
  }

  lemma {:induction false} SameWrites<T>(w: T -> Write, w': T -> Write, xs: seq<T>)
    requires forall x :: x in xs ==> w(x) == w'(x)
    ensures LastWins(w, xs) == LastWins(w', xs)
  {
    if xs != [] {
      SameWrites(w, w', xs[..|xs| - 1]);
    }
  }

  /** For one document and instant, facts are independent of the order of the mappings exactly
      when a required mapping fails or no two mappings give one fact key different values. */
  lemma FactsOrderFreeIff(lib: Lib, rs: seq<Resolver>, ms: seq<Mapping>, inputs: Json, now: int)
    ensures (forall ms' :: multiset(ms') == multiset(ms) ==>
               Resolved(lib, rs, ms', inputs, now) == Resolved(lib, rs, ms, inputs, now))
        <==> RequiredFails(lib, Document(rs, inputs), now, ms)
             || Consistent(MappingWrite(lib, Document(rs, inputs), now), ms)
  {
    hide Value, Document;
    var doc := Document(rs, inputs);
    var w := MappingWrite(lib, doc, now);
    OrderFreeIffConsistent(w, ms);
    if RequiredFails(lib, doc, now, ms) || Consistent(w, ms) {
      forall ms' | multiset(ms') == multiset(ms)
        ensures Resolved(lib, rs, ms', inputs, now) == Resolved(lib, rs, ms, inputs, now)
      {
        SameMultisetSameElements(ms, ms');
        SameFailures(lib, doc, now, ms, ms');
        SameFailures(lib, doc, now, ms', ms);
        if Consistent(w, ms) {
          assert LastWins(w, ms') == LastWins(w, ms);
        }
      }
    } else {
      var ms' :| multiset(ms') == multiset(ms) && LastWins(w, ms') != LastWins(w, ms);
      SameMultisetSameElements(ms, ms');
      SameFailures(lib, doc, now, ms', ms);
      assert Resolved(lib, rs, ms', inputs, now) != Resolved(lib, rs, ms, inputs, now);
    }
  }

  lemma SameFailures(lib: Lib, doc: Json, now: int, ms: seq<Mapping>, ms': seq<Mapping>)
    requires forall m :: m in ms <==> m in ms'
    ensures RequiredFails(lib, doc, now, ms) ==> RequiredFails(lib, doc, now, ms')
  {
    hide Value;
    if RequiredFails(lib, doc, now, ms) {
      var i :| 0 <= i < |ms| && ms[i].required && Value(lib, doc, now, ms[i]).None?;
      assert ms[i] in ms;
      var j :| 0 <= j < |ms'| && ms'[j] == ms[i];
    }
  }
}
