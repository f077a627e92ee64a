/** What resolved facts are (internal/facts/engine.go), said of the rows and the inputs alone: which
    document the paths are searched in, what each transform makes of what its search finds, and what a
    mapping that fails leaves. */
module FactMeanings {
  import opened Text
  import opened Json
  import opened Facts

  // ---------------------------------------------------------------- the document

  /** The document has the inputs, and under each resolver name the sample of the last resolver of that
      name. */
  predicate Composes(doc: Json, rs: seq<Resolver>, inputs: Json) {
    && doc.JObj? && doc.fields.Keys == {"inputs", "resolvers"} && doc.fields["inputs"] == inputs
    && doc.fields["resolvers"].JObj?
    && var samples := doc.fields["resolvers"].fields;
       && (forall name :: name in samples ==> exists i :: 0 <= i < |rs| && rs[i].name == name)
       && (forall i :: 0 <= i < |rs| ==> rs[i].name in samples)
       && (forall i :: 0 <= i < |rs| && (forall j :: i < j < |rs| ==> rs[j].name != rs[i].name) ==>
             samples[rs[i].name] == rs[i].sample)
  }

  /** The last write to a key is the one that stays. */
  lemma {:induction false} LastWriteStays<T>(w: T -> Write, xs: seq<T>, i: nat)
    requires i < |xs| && w(xs[i]).value.Some?
    requires forall j :: i < j < |xs| && w(xs[j]).key == w(xs[i]).key ==> w(xs[j]).value.None?
    ensures w(xs[i]).key in LastWins(w, xs) && LastWins(w, xs)[w(xs[i]).key] == w(xs[i]).value.value
  {
    var n := |xs| - 1;
    if i < n {
      assert forall j :: 0 <= j < n ==> xs[..n][j] == xs[j];
      LastWriteStays(w, xs[..n], i);
    }
  }

  lemma {:induction false} KeysAreWritten<T>(w: T -> Write, xs: seq<T>, k: string)
    ensures k in LastWins(w, xs) <==> exists i :: 0 <= i < |xs| && w(xs[i]).key == k && w(xs[i]).value.Some?
  {
    if xs != [] {
      var n := |xs| - 1;
      KeysAreWritten(w, xs[..n], k);
      assert forall j :: 0 <= j < n ==> xs[..n][j] == xs[j];
      if i :| 0 <= i < |xs| && w(xs[i]).key == k && w(xs[i]).value.Some? {
        assert i < n ==> xs[..n][i] == xs[i];
      }
    }
  }

  lemma DocumentComposes(rs: seq<Resolver>, inputs: Json)
    ensures Composes(Document(rs, inputs), rs, inputs)
  {
    var w := ResolverWrite();
    var samples := LastWins(w, rs);
    forall name ensures name in samples <==> exists i :: 0 <= i < |rs| && rs[i].name == name {
      KeysAreWritten(w, rs, name);
      if i :| 0 <= i < |rs| && rs[i].name == name {
        assert w(rs[i]).key == name;
      }
    }
    forall i | 0 <= i < |rs| && (forall j :: i < j < |rs| ==> rs[j].name != rs[i].name)
      ensures samples[rs[i].name] == rs[i].sample
    {
      LastWriteStays(w, rs, i);
    }
  }

  /** Two documents composed of the same rows differ in nothing when no two resolvers share a name. */
  lemma ComposedIsDocument(doc: Json, rs: seq<Resolver>, inputs: Json)
    requires Composes(doc, rs, inputs)
    ensures doc == Document(rs, inputs)
  {
    DocumentComposes(rs, inputs);
    hide Document;
    var a, b := doc.fields["resolvers"].fields, Document(rs, inputs).fields["resolvers"].fields;
    forall name | name in a ensures name in b && a[name] == b[name] {
      var i := LastOf(rs, name);
    }
    forall name | name in b ensures name in a {
      var i :| 0 <= i < |rs| && rs[i].name == name;
    }
    assert a == b;
    SameDocument(doc, Document(rs, inputs), rs, inputs);
  }

  lemma SameDocument(doc: Json, other: Json, rs: seq<Resolver>, inputs: Json)
    requires Composes(doc, rs, inputs) && Composes(other, rs, inputs)
    requires doc.fields["resolvers"].fields == other.fields["resolvers"].fields
    ensures doc == other
  {
    assert doc.fields.Keys == other.fields.Keys;
    assert forall k :: k in doc.fields ==> k == "inputs" || k == "resolvers";
    assert doc.fields == other.fields;
  }

  lemma {:induction false} LastOf(rs: seq<Resolver>, name: string) returns (i: nat)
    requires exists i :: 0 <= i < |rs| && rs[i].name == name
    ensures i < |rs| && rs[i].name == name && forall j :: i < j < |rs| ==> rs[j].name != name
  {
    var n := |rs| - 1;
    i := n;
    if rs[n].name != name {
      var k :| 0 <= k < |rs| && rs[k].name == name;
      assert rs[..n][k] == rs[k];
      i := LastOf(rs[..n], name);
      assert forall j :: 0 <= j < n ==> rs[..n][j] == rs[j];
    }
  }

  // ---------------------------------------------------------------- the transforms

  /** Adding up numbers, anything else counting for nothing, is additive. */
  lemma {:induction false} SumAdds(a: seq<Json>, b: seq<Json>)
    ensures Sum(a + b) == Sum(a) + Sum(b)
  {
    if b == [] {
      assert a + b == a;
    } else {
      SumAdds(a, b[..|b| - 1]);
      assert (a + b)[..|a + b| - 1] == a + b[..|b| - 1];
    }
  }

  lemma SumOfOne(v: Json)
    ensures Sum([v]) == if v.JNum? then v.n else 0.0
    ensures Sum([]) == 0.0
  {
    assert [v][..0] == [];
  }

  /** What counts as zero for `coalesce` */
  lemma ZeroIff(v: Json)
    ensures IsZero(v) <==>
            || v == JNull || v == JNum(0.0) || v == JArr([]) || v == JObj(map[])
            || (v.JStr? && forall i :: 0 <= i < |v.s| ==> IsSpace(v.s[i]))
  {
    hide IsSpace;
    if v.JStr? {
      TrimEmptyIff(IsSpace, v.s);
    }
  }

  /** `field == 'value'`, in either kind of quotes and with blanks at the ends of both sides or not: the
      value is an object that has the field, and it prints as the text. */
  lemma {:induction false} PredicateHolds(show: Printer, v: Json, field: string, value: string, quote: string,
                                          gap: string)
    requires '=' !in field && '=' !in value && (gap == "" || gap == " ") && (quote == "'" || quote == "\"")
    requires field != "" && !IsSpace(field[0]) && !IsSpace(field[|field| - 1])
    requires value != "" ==> value[0] !in "'\"" && value[|value| - 1] !in "'\""
    ensures Matches(show, v, (field + gap) + "==" + (gap + (quote + value + quote)))
        <==> v.JObj? && field in v.fields && show(v.fields[field]) == value
  {
    var quoted := quote + value + quote;
    SplitOnce(field + gap, gap + quoted);
    PredicateParts(show, v, field + gap, gap + quoted);
    hide SplitEquals, Matches;
    QuotedTrims(field, value, quote, gap);
  }

  lemma QuotedTrims(field: string, value: string, quote: string, gap: string)
    requires (gap == "" || gap == " ") && (quote == "'" || quote == "\"")
    requires field != "" && !IsSpace(field[0]) && !IsSpace(field[|field| - 1])
    requires value != "" ==> value[0] !in "'\"" && value[|value| - 1] !in "'\""
    ensures TrimSpace(field + gap) == field
    ensures Trim(IsQuote, TrimSpace(gap + (quote + value + quote))) == value
  {
    var quoted := quote + value + quote;
    assert IsSpace(' ') && !IsSpace('\'') && !IsSpace('"');
    assert forall c :: IsQuote(c) <==> c in "'\"";
    assert "" + field + gap == field + gap && gap + quoted + "" == gap + quoted;
    hide IsSpace, IsQuote, Trim;
    TrimStrips(IsSpace, "", field, gap);
    TrimStrips(IsSpace, gap, quoted, "");
    TrimStrips(IsQuote, quote, value, quote);
  }

  lemma PredicateParts(show: Printer, v: Json, a: string, b: string)
    requires SplitEquals(a + "==" + b, 0) == [a, b]
    ensures Matches(show, v, a + "==" + b) <==>
            v.JObj? && TrimSpace(a) in v.fields && show(v.fields[TrimSpace(a)]) == Trim(IsQuote, TrimSpace(b))
  {
    hide SplitEquals, TrimSpace, Trim;
  }

  lemma SplitOnce(a: string, b: string)
    requires '=' !in a && '=' !in b
    ensures SplitEquals(a + "==" + b, 0) == [a, b]
  {
    var s := a + "==" + b;
    assert forall i :: 0 <= i < |a| ==> s[i] == a[i];
    SkipTo(s, 0, |a|);
    assert s[..|a|] == a && s[|a| + 2..] == b;
    SkipTo(b, 0, |b|);
  }

  lemma {:induction false} SkipTo(s: string, i: nat, j: nat)
    requires i <= j <= |s| && forall k :: i <= k < j ==> s[k] != '='
    ensures SplitEquals(s, i) == SplitEquals(s, j)
    decreases j - i
  {
    if i < j && i + 2 <= |s| {
      SkipTo(s, i + 1, j);
    }
  }

  /** What a transform yields of the value found */
  predicate Yields(lib: Lib, m: Mapping, v: Json, now: int, r: Json) {
    match m.transform
    case "count" => r == JNum(if v.JArr? then |v.items| as real else 0.0)
    case "sum" => r == JNum(if v.JArr? then Sum(v.items) else Sum([v]))
    case "first" => r == if !v.JArr? then v else if v.items == [] then JNull else v.items[0]
    case "exists" => r.JBool? && (r.b <==> v != JNull)
    case "any" =>
      r.JBool? && (r.b <==> if |m.args| == 2 then SomeHolds(lib.show, m.args[0], m.args[1])
                            else v != JNull && v != JArr([]))
    case "all" =>
      r.JBool? && (r.b <==> if |m.args| == 2 then AllHold(lib.show, m.args[0], m.args[1])
                            else v != JNull && v != JArr([]))
    case "coalesce" => Coalesced(m.args, v, r)
    case "to_number" =>
      r == JNum(if v.JNum? then v.n
                else if v.JStr? && lib.parse(TrimSpace(v.s)).Some? then lib.parse(TrimSpace(v.s)).value else 0.0)
    case "to_string" => r == JStr(lib.show(v))
    case "now" => r == JStr(lib.nowText(now))
    case "days_between" => Some(r) == Days(lib, m, v, now)
    case _ => r == v
  }

  /** The predicate holds of an element of the list, or of the value alone when it is no list. */
  predicate SomeHolds(show: Printer, src: Json, pred: Json) {
    pred.JStr? && if src.JArr? then exists v :: v in src.items && Matches(show, v, pred.s) else Matches(show, src, pred.s)
  }

  /** There are elements and it holds of all. */
  predicate AllHold(show: Printer, src: Json, pred: Json) {
    pred.JStr? && if src.JArr? then src.items != [] && forall v :: v in src.items ==> Matches(show, v, pred.s)
                  else Matches(show, src, pred.s)
  }

  /** The first argument that is not zero, or the value when all are */
  predicate Coalesced(args: seq<Json>, v: Json, r: Json) {
    || (exists i :: 0 <= i < |args| && IsFirst(args, i) && r == args[i])
    || ((forall i :: 0 <= i < |args| ==> IsZero(args[i])) && r == v)
  }

  predicate IsFirst(args: seq<Json>, i: int)
    requires 0 <= i < |args|
  {
    !IsZero(args[i]) && forall j :: 0 <= j < i ==> IsZero(args[j])
  }

  /** No predicate is empty: an empty text, and what is not a text, holds of nothing; and only objects have
      fields. */
  lemma OnlyObjectsMatch(show: Printer, v: Json, pred: string)
    ensures !v.JObj? || pred == "" ==> !Matches(show, v, pred)
  {
  }

  lemma SomeMatchHolds(show: Printer, src: Json, pred: Json)
    ensures SomeMatch(show, ToArray(src), TextOf(pred)) <==> SomeHolds(show, src, pred)
    ensures AllMatch(show, ToArray(src), TextOf(pred)) <==> AllHold(show, src, pred)
  {
    forall v: Json ensures !v.JObj? || !pred.JStr? ==> !Matches(show, v, TextOf(pred)) {
      OnlyObjectsMatch(show, v, TextOf(pred));
    }
    hide Matches;
    var items := ToArray(src);
    assert forall v :: v in items <==> exists i :: 0 <= i < |items| && items[i] == v;
    if items != [] {
      assert !pred.JStr? ==> !Matches(show, items[0], TextOf(pred));
      assert !src.JArr? ==> items[0] == src;
    }
    if AllHold(show, src, pred) {
      forall i | 0 <= i < |items| ensures Matches(show, items[i], TextOf(pred)) {
        assert items[i] in items;
      }
    }
  }

  /** The days between two arguments, or else between the two elements of the value found */
  function Days(lib: Lib, m: Mapping, v: Json, now: int): Option<Json> {
    if |m.args| == 2 then lib.daysBetween(m.args[0], m.args[1], now)
    else if v.JArr? && |v.items| == 2 then lib.daysBetween(v.items[0], v.items[1], now)
    else None
  }

  /** A mapping fails when its search does, or when it asks for the days between no two dates. */
  predicate Fails(lib: Lib, doc: Json, now: int, m: Mapping) {
    var found := lib.search(m.path, doc);
    found.None? || (m.transform == "days_between" && Days(lib, m, found.value, now).None?)
  }

  lemma {:induction false} FirstNonZeroIs(args: seq<Json>)
    ensures FirstNonZero(args).None? ==> forall i :: 0 <= i < |args| ==> IsZero(args[i])
    ensures FirstNonZero(args).Some? ==>
              exists i :: 0 <= i < |args| && IsFirst(args, i) && FirstNonZero(args).value == args[i]
  {
    hide IsZero;
    if args != [] && IsZero(args[0]) {
      FirstNonZeroIs(args[1..]);
      if FirstNonZero(args).Some? {
        var i :| 0 <= i < |args| - 1 && IsFirst(args[1..], i) && FirstNonZero(args).value == args[1..][i];
        assert forall j :: 0 <= j < i + 1 ==> j == 0 || args[j] == args[1..][j - 1];
        assert IsFirst(args, i + 1);
      } else {
        assert forall j :: 0 < j < |args| ==> args[j] == args[1..][j - 1];
      }
    } else if args != [] {
      assert IsFirst(args, 0);
    }
  }

  /** The transform's result, or that there is none */
  predicate YieldsOrFails(lib: Lib, m: Mapping, v: Json, now: int) {
    var r := Transformed(lib, m.transform, v, m.args, now);
    && (r.None? <==> m.transform == "days_between" && Days(lib, m, v, now).None?)
    && (r.Some? ==> Yields(lib, m, v, now, r.value))
  }

  lemma ListYields(lib: Lib, m: Mapping, v: Json, now: int)
    requires m.transform == "count" || m.transform == "sum" || m.transform == "first" || m.transform == "exists"
    ensures YieldsOrFails(lib, m, v, now)
  {
    SumOfOne(v);
    hide Sum, Matches, IsZero, FirstNonZero, SomeMatch, AllMatch, Days;
  }

  lemma MatchYields(lib: Lib, m: Mapping, v: Json, now: int)
    requires m.transform == "any" || m.transform == "all"
    ensures YieldsOrFails(lib, m, v, now)
  {
    if |m.args| == 2 {
      SomeMatchHolds(lib.show, m.args[0], m.args[1]);
    }
    hide Sum, Matches, IsZero, FirstNonZero, SomeMatch, AllMatch, SomeHolds, AllHold, ToArray, TextOf, Days;
  }

  lemma OtherYields(lib: Lib, m: Mapping, v: Json, now: int)
    requires m.transform != "count" && m.transform != "sum" && m.transform != "first" && m.transform != "exists"
    requires m.transform != "any" && m.transform != "all"
    ensures YieldsOrFails(lib, m, v, now)
  {
    FirstNonZeroIs(m.args);
    hide Sum, Matches, IsZero, FirstNonZero, SomeMatch, AllMatch, SomeHolds, AllHold, IsFirst, TrimSpace;
  }

  lemma TransformYields(lib: Lib, m: Mapping, v: Json, now: int)
    ensures m.transform == "" ==> Yields(lib, m, v, now, v)
    ensures m.transform != "" ==>
              var r := Transformed(lib, m.transform, v, m.args, now);
              && (r.None? <==> m.transform == "days_between" && Days(lib, m, v, now).None?)
              && (r.Some? ==> Yields(lib, m, v, now, r.value))
  {
    var t := m.transform;
    assert t == "" ==> Yields(lib, m, v, now, v) by {
      hide Transformed, Sum, SomeHolds, AllHold, Coalesced, Days;
    }
    hide Transformed, Yields, Days;
    if t == "count" || t == "sum" || t == "first" || t == "exists" {
      ListYields(lib, m, v, now);
    } else if t == "any" || t == "all" {
      MatchYields(lib, m, v, now);
    } else {
      OtherYields(lib, m, v, now);
    }
  }

  lemma ValueYields(lib: Lib, doc: Json, now: int, m: Mapping)
    ensures Value(lib, doc, now, m).None? <==> Fails(lib, doc, now, m)
    ensures Value(lib, doc, now, m).Some? ==>
              Yields(lib, m, lib.search(m.path, doc).value, now, Value(lib, doc, now, m).value)
  {
    if lib.search(m.path, doc).Some? {
      TransformYields(lib, m, lib.search(m.path, doc).value, now);
      hide Transformed, Yields, Days;
    }
  }

  // ---------------------------------------------------------------- the facts

  /** Facts are null exactly when a required mapping fails; a fact is there exactly when some mapping
      with its key does not fail. */
  lemma FactsThere(lib: Lib, rs: seq<Resolver>, ms: seq<Mapping>, inputs: Json, now: int, doc: Json)
    requires Composes(doc, rs, inputs)
    ensures var facts := Resolved(lib, rs, ms, inputs, now);
            && (facts == JNull <==> exists i :: 0 <= i < |ms| && ms[i].required && Fails(lib, doc, now, ms[i]))
            && (facts != JNull ==>
                  facts.JObj? && forall k :: k in facts.fields <==>
                    exists i :: 0 <= i < |ms| && ms[i].factKey == k && !Fails(lib, doc, now, ms[i]))
  {
    ComposedIsDocument(doc, rs, inputs);
    hide Value, Fails, Yields, Composes, Document;
    forall i | 0 <= i < |ms| ensures Value(lib, doc, now, ms[i]).None? <==> Fails(lib, doc, now, ms[i]) {
      ValueYields(lib, doc, now, ms[i]);
    }
    var w := MappingWrite(lib, doc, now);
    forall k
      ensures k in LastWins(w, ms) <==> exists i :: 0 <= i < |ms| && ms[i].factKey == k && !Fails(lib, doc, now, ms[i])
    {
      KeysAreWritten(w, ms, k);
      if i :| 0 <= i < |ms| && ms[i].factKey == k && !Fails(lib, doc, now, ms[i]) {
        assert w(ms[i]).key == k;
      }
    }
  }

  /** This mapping does not fail, and no later one that does not has its key. */
  predicate Settles(lib: Lib, doc: Json, now: int, ms: seq<Mapping>, i: int) {
    && 0 <= i < |ms| && !Fails(lib, doc, now, ms[i])
    && forall j :: i < j < |ms| && ms[j].factKey == ms[i].factKey ==> Fails(lib, doc, now, ms[j])
  }

  /** The fact of this mapping is what its transform yields of the value its path finds. */
  predicate IsFact(lib: Lib, doc: Json, now: int, m: Mapping, facts: Json) {
    && facts.JObj? && m.factKey in facts.fields
    && lib.search(m.path, doc).Some?
    && Yields(lib, m, lib.search(m.path, doc).value, now, facts.fields[m.factKey])
  }

  /** Each fact is what its mapping's transform yields of the value that its path finds in the composed
      document: of the last mapping with that key that does not fail. */
  lemma FactsMean(lib: Lib, rs: seq<Resolver>, ms: seq<Mapping>, inputs: Json, now: int, doc: Json, i: nat)
    requires Composes(doc, rs, inputs) && Resolved(lib, rs, ms, inputs, now) != JNull
    requires Settles(lib, doc, now, ms, i)
    ensures IsFact(lib, doc, now, ms[i], Resolved(lib, rs, ms, inputs, now))
  {
    ComposedIsDocument(doc, rs, inputs);
    assert lib.search(ms[i].path, doc).Some?;
    hide Value, Fails, Yields, Composes, Document;
    forall j | 0 <= j < |ms| ensures Value(lib, doc, now, ms[j]).None? <==> Fails(lib, doc, now, ms[j]) {
      ValueYields(lib, doc, now, ms[j]);
    }
    ValueYields(lib, doc, now, ms[i]);
    LastWriteStays(MappingWrite(lib, doc, now), ms, i);
  }
}
