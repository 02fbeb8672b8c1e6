/** `Client::filter` and the `filter=` query parameter.

    A rule is a triple (field, operator, value). `filter` keeps a record when
    no rule rejects it; a rule is tested with its own value on the LEFT of
    the comparison, and an operator other than the six comparisons never
    rejects. PHP's loose comparison is replaced by one fixed order on values:
    values of different kinds compare by kind (null < bool < int < string <
    list < object < entity), booleans false < true, integers numerically,
    strings lexicographically by character code; two lists, objects or
    entities are neither smaller nor larger than each other. Equality is
    structural. */
module Filter {
  import opened Common
  import opened Values
  import opened EntityData

  datatype Rule = Rule(field: string, op: string, value: Scalar)

  /** The operators `filter` tests. */
  predicate Comparison(op: string)
  {
    op == "=" || op == "!=" || op == "<" || op == ">" || op == "<=" || op == ">="
  }

  function Rank(v: Value): nat
  {
    match v
    case Sc(Null) => 0
    case Sc(Bool(_)) => 1
    case Sc(Int(_)) => 2
    case Sc(Str(_)) => 3
    case Arr(_) => 4
    case Obj(_) => 5
    case Ent(_) => 6
  }

  /** Lexicographic comparison of strings: -1, 0 or 1. */
  function StrCmp(a: string, b: string): (c: int)
    ensures -1 <= c <= 1
    decreases |a|
  {
    if |a| == 0 && |b| == 0 then 0
    else if |a| == 0 then -1
    else if |b| == 0 then 1
    else if a[0] < b[0] then -1
    else if a[0] > b[0] then 1
    else StrCmp(a[1..], b[1..])
  }

  /** Three-way comparison of values: -1, 0 or 1. */
  function Cmp(a: Value, b: Value): (c: int)
    ensures -1 <= c <= 1
  {
    if Rank(a) < Rank(b) then -1
    else if Rank(a) > Rank(b) then 1
    else match (a, b)
      case (Sc(Bool(x)), Sc(Bool(y))) => if x == y then 0 else if y then -1 else 1
      case (Sc(Int(x)), Sc(Int(y))) => if x < y then -1 else if x > y then 1 else 0
      case (Sc(Str(x)), Sc(Str(y))) => StrCmp(x, y)
      case _ => 0
  }

  predicate Less(a: Value, b: Value)
  {
    Cmp(a, b) < 0
  }

  lemma {:induction false} StrCmpAntisymmetric(a: string, b: string)
    ensures StrCmp(a, b) == -StrCmp(b, a)
    decreases |a|
  {
    if |a| > 0 && |b| > 0 && a[0] == b[0] {
      StrCmpAntisymmetric(a[1..], b[1..]);
    }
  }

  lemma {:induction false} StrCmpZero(a: string, b: string)
    ensures StrCmp(a, b) == 0 <==> a == b
    decreases |a|
  {
    if |a| > 0 && |b| > 0 && a[0] == b[0] {
      StrCmpZero(a[1..], b[1..]);
      if a[1..] == b[1..] {
        assert a == [a[0]] + a[1..] && b == [b[0]] + b[1..];
      }
    } else if |a| > 0 && |b| > 0 {
      assert a[0] != b[0];
    }
  }

  lemma {:induction false} StrCmpTransitive(a: string, b: string, c: string)
    requires StrCmp(a, b) < 0 && StrCmp(b, c) < 0
    ensures StrCmp(a, c) < 0
    decreases |a|
  {
    if |a| > 0 && |b| > 0 && |c| > 0 && a[0] == b[0] && b[0] == c[0] {
      StrCmpTransitive(a[1..], b[1..], c[1..]);
    }
  }

  /** The order is antisymmetric, transitive, and on scalars agrees with
      equality: it is a strict weak order that is total on scalars. */
  lemma CmpAntisymmetric(a: Value, b: Value)
    ensures Cmp(a, b) == -Cmp(b, a)
  {
    if a.Sc? && b.Sc? && a.scalar.Str? && b.scalar.Str? {
      StrCmpAntisymmetric(a.scalar.s, b.scalar.s);
    }
  }

  lemma CmpTransitive(a: Value, b: Value, c: Value)
    requires Less(a, b) && Less(b, c)
    ensures Less(a, c)
  {
    if a.Sc? && b.Sc? && c.Sc? && a.scalar.Str? && b.scalar.Str? && c.scalar.Str? {
      StrCmpTransitive(a.scalar.s, b.scalar.s, c.scalar.s);
    }
  }

  lemma CmpScalarsZero(a: Value, b: Value)
    requires a.Sc? && b.Sc?
    ensures Cmp(a, b) == 0 <==> a == b
  {
    if a.scalar.Str? && b.scalar.Str? {
      StrCmpZero(a.scalar.s, b.scalar.s);
    }
  }

  /** Whether a rule with operator `op` and value `v` rejects a record
      whose field holds `x`: the first of the six tests matching `op`. */
  predicate Rejects(op: string, v: Value, x: Value)
  {
    if op == "=" then v != x
    else if op == "!=" then v == x
    else if op == "<" then Cmp(v, x) >= 0
    else if op == ">" then Cmp(v, x) <= 0
    else if op == "<=" then Cmp(v, x) > 0
    else if op == ">=" then Cmp(v, x) < 0
    else false
  }

  /** A rule holds for a record whose field can be read and does not make
      the rule reject it; a non-comparison rule always holds. */
  predicate Holds(rule: Rule, rec: Value)
  {
    !Comparison(rule.op)
    || (Property(rec, rule.field).Ok? && !Rejects(rule.op, Sc(rule.value), Property(rec, rule.field).value))
  }

  /** What each operator demands of the record's field `x`, with the rule
      value `v` on the left. */
  lemma HoldsMeaning(rule: Rule, rec: Value)
    requires Property(rec, rule.field).Ok?
    ensures var v, x := Sc(rule.value), Property(rec, rule.field).value;
      && (rule.op == "=" ==> (Holds(rule, rec) <==> v == x))
      && (rule.op == "!=" ==> (Holds(rule, rec) <==> v != x))
      && (rule.op == "<" ==> (Holds(rule, rec) <==> Less(v, x)))
      && (rule.op == ">" ==> (Holds(rule, rec) <==> Less(x, v)))
      && (x.Sc? ==> rule.op == "<=" ==> (Holds(rule, rec) <==> Less(v, x) || v == x))
      && (x.Sc? ==> rule.op == ">=" ==> (Holds(rule, rec) <==> Less(x, v) || v == x))
      && (!Comparison(rule.op) ==> Holds(rule, rec))
  {
    var v, x := Sc(rule.value), Property(rec, rule.field).value;
    CmpAntisymmetric(v, x);
    if x.Sc? {
      CmpScalarsZero(v, x);
    }
  }

  /** Testing one record against the rules, in order: Ok(false) at the
      first rule that rejects it, Ok(true) when none does, an error when a
      field read fails (an Entity without that field) before that. */
  function Check(rules: seq<Rule>, rec: Value): (r: Result<bool>)
    decreases |rules|
  {
    if |rules| == 0 then Ok(true)
    else
      var rule := rules[0];
      if !Comparison(rule.op) then Check(rules[1..], rec)
      else match Property(rec, rule.field)
        case Err(e) => Err(e)
        case Ok(x) => if Rejects(rule.op, Sc(rule.value), x) then Ok(false) else Check(rules[1..], rec)
  }

  /** A record is kept exactly when every rule holds; the test fails exactly
      when some field read fails while every earlier rule holds. */
  lemma {:induction false} CheckMeaning(rules: seq<Rule>, rec: Value)
    ensures Check(rules, rec).Ok? ==> (Check(rules, rec).value <==> forall j :: 0 <= j < |rules| ==> Holds(rules[j], rec))
    ensures Check(rules, rec).Err? <==> exists j :: (0 <= j < |rules| && Comparison(rules[j].op)
              && Property(rec, rules[j].field).Err? && forall i :: 0 <= i < j ==> Holds(rules[i], rec))
    decreases |rules|
  {
    if |rules| > 0 {
      CheckMeaning(rules[1..], rec);
      assert forall j :: 1 <= j < |rules| ==> rules[j] == rules[1..][j - 1];
      var rule := rules[0];
      if Comparison(rule.op) && Property(rec, rule.field).Err? {
      } else if Holds(rule, rec) {
        if Check(rules, rec).Err? {
          var j :| 0 <= j < |rules[1..]| && Comparison(rules[1..][j].op)
              && Property(rec, rules[1..][j].field).Err? && forall i :: 0 <= i < j ==> Holds(rules[1..][i], rec);
          assert forall i :: 0 <= i < j + 1 ==> Holds(rules[i], rec) by {
            forall i | 0 <= i < j + 1 ensures Holds(rules[i], rec) {
              if i > 0 { assert rules[i] == rules[1..][i - 1]; }
            }
          }
        } else {
          forall j | 0 <= j < |rules| && Comparison(rules[j].op) && Property(rec, rules[j].field).Err?
            ensures exists i :: 0 <= i < j && !Holds(rules[i], rec)
          {
            assert j > 0;
            assert !(Comparison(rules[1..][j - 1].op) && Property(rec, rules[1..][j - 1].field).Err?
                     && forall i :: 0 <= i < j - 1 ==> Holds(rules[1..][i], rec));
            var i :| 0 <= i < j - 1 && !Holds(rules[1..][i], rec);
            assert rules[1..][i] == rules[i + 1];
          }
        }
      } else {
        assert !Holds(rules[0], rec);
      }
    }
  }

  /** The pass/fail half of `CheckMeaning`. */
  lemma CheckPasses(rules: seq<Rule>, rec: Value)
    requires Check(rules, rec).Ok?
    ensures Check(rules, rec).value <==> forall j :: 0 <= j < |rules| ==> Holds(rules[j], rec)
  {
    CheckMeaning(rules, rec);
  }

  /** `filter`: the records kept, in their order, or the first error. */
  function Filtered(list: seq<Value>, rules: seq<Rule>): (r: Result<seq<Value>>)
    decreases |list|
  {
    if |list| == 0 then Ok([])
    else match Check(rules, list[0])
      case Err(e) => Err(e)
      case Ok(keep) =>
        match Filtered(list[1..], rules)
        case Err(e) => Err(e)
        case Ok(rest) => Ok((if keep then [list[0]] else []) + rest)
  }

  /** `a` is `b` with some elements dropped, order kept. */
  predicate Subsequence(a: seq<Value>, b: seq<Value>)
    decreases |b|
  {
    if |a| == 0 then true
    else if |b| == 0 then false
    else if a[0] == b[0] then Subsequence(a[1..], b[1..])
    else Subsequence(a, b[1..])
  }

  /** When every field read succeeds, `filter` keeps exactly the records
      every rule holds for, in their order, each as often as it occurs. */
  lemma FilteredMeaning(list: seq<Value>, rules: seq<Rule>)
    requires forall i :: 0 <= i < |list| ==> Check(rules, list[i]).Ok?
    ensures Filtered(list, rules).Ok?
    ensures Subsequence(Filtered(list, rules).value, list)
    ensures forall x :: x in Filtered(list, rules).value <==>
              x in list && forall j :: 0 <= j < |rules| ==> Holds(rules[j], x)
    ensures forall x :: multiset(Filtered(list, rules).value)[x] ==
              if forall j :: 0 <= j < |rules| ==> Holds(rules[j], x) then multiset(list)[x] else 0
  {
    FilteredOrder(list, rules);
    FilteredCounts(list, rules);
  }

  /** The order and membership half of `FilteredMeaning`. */
  lemma {:induction false} FilteredOrder(list: seq<Value>, rules: seq<Rule>)
    requires forall i :: 0 <= i < |list| ==> Check(rules, list[i]).Ok?
    ensures Filtered(list, rules).Ok?
    ensures Subsequence(Filtered(list, rules).value, list)
    ensures forall x :: x in Filtered(list, rules).value <==>
              x in list && forall j :: 0 <= j < |rules| ==> Holds(rules[j], x)
    decreases |list|
  {
    if |list| > 0 {
      assert forall i :: 0 <= i < |list[1..]| ==> list[1..][i] == list[i + 1];
      FilteredOrder(list[1..], rules);
      CheckPasses(rules, list[0]);
      var rest := Filtered(list[1..], rules).value;
      assert list == [list[0]] + list[1..];
      assert forall x :: x in list <==> x == list[0] || x in list[1..];
      if Check(rules, list[0]).value {
        assert Filtered(list, rules).value == [list[0]] + rest;
        assert ([list[0]] + rest)[1..] == rest;
      } else {
        assert Filtered(list, rules).value == rest;
        assert !(forall j :: 0 <= j < |rules| ==> Holds(rules[j], list[0]));
        SubsequenceOfTail(rest, list);
      }
    }
  }

  /** Every record `filter` keeps passes the rules. */
  lemma {:induction false} FilteredKeepsPassing(list: seq<Value>, rules: seq<Rule>)
    requires Filtered(list, rules).Ok?
    ensures forall x :: x in Filtered(list, rules).value ==> Check(rules, x) == Ok(true)
    decreases |list|
  {
    if |list| > 0 {
      FilteredKeepsPassing(list[1..], rules);
    }
  }

  /** The first record `filter` keeps is the first one every rule holds
      for: `filter` keeps the records' order. */
  lemma {:induction false} FilteredFirst(list: seq<Value>, rules: seq<Rule>) returns (i: nat)
    requires forall k :: 0 <= k < |list| ==> Check(rules, list[k]).Ok?
    requires Filtered(list, rules).Ok? && |Filtered(list, rules).value| > 0
    ensures i < |list| && Filtered(list, rules).value[0] == list[i]
    ensures forall j :: 0 <= j < |rules| ==> Holds(rules[j], list[i])
    ensures forall k :: 0 <= k < i ==> !(forall j :: 0 <= j < |rules| ==> Holds(rules[j], list[k]))
    decreases |list|
  {
    CheckPasses(rules, list[0]);
    if Check(rules, list[0]).value {
      i := 0;
    } else {
      assert forall k :: 0 <= k < |list[1..]| ==> list[1..][k] == list[k + 1];
      var i' := FilteredFirst(list[1..], rules);
      i := i' + 1;
      forall k | 0 <= k < i ensures !(forall j :: 0 <= j < |rules| ==> Holds(rules[j], list[k])) {
        if k > 0 {
          assert list[k] == list[1..][k - 1];
        }
      }
    }
  }

  /** Every copy of a record every rule holds for is kept, and no copy of
      any other: `filter` unsets rejected records by position. */
  lemma {:induction false} FilteredCounts(list: seq<Value>, rules: seq<Rule>)
    requires forall i :: 0 <= i < |list| ==> Check(rules, list[i]).Ok?
    ensures Filtered(list, rules).Ok?
    ensures forall x :: multiset(Filtered(list, rules).value)[x] ==
              if forall j :: 0 <= j < |rules| ==> Holds(rules[j], x) then multiset(list)[x] else 0
    decreases |list|
  {
    if |list| > 0 {
      var head, tail := list[0], list[1..];
      assert forall i :: 0 <= i < |tail| ==> tail[i] == list[i + 1];
      FilteredCounts(tail, rules);
      CheckPasses(rules, head);
      var kept, rest := if Check(rules, head).value then [head] else [], Filtered(tail, rules).value;
      assert Filtered(list, rules).value == kept + rest;
      assert multiset(list) == multiset([head]) + multiset(tail) by {
        assert list == [head] + tail;
      }
      assert multiset(kept + rest) == multiset(kept) + multiset(rest);
    }
  }

  lemma {:induction false} SubsequenceOfTail(a: seq<Value>, b: seq<Value>)
    requires |b| > 0 && Subsequence(a, b[1..])
    ensures Subsequence(a, b)
    decreases |b|, 0
  {
    if |a| > 0 && a[0] == b[0] {
      SubsequenceDropFirst(a, b[1..]);
    }
  }

  lemma {:induction false} SubsequenceDropFirst(a: seq<Value>, c: seq<Value>)
    requires |a| > 0 && Subsequence(a, c)
    ensures Subsequence(a[1..], c)
    decreases |c|, 1
  {
    if a[0] == c[0] {
      SubsequenceOfTail(a[1..], c);
    } else {
      SubsequenceDropFirst(a, c[1..]);
      SubsequenceOfTail(a[1..], c);
    }
  }

  /** With no rules every record is kept. */
  lemma {:induction false} FilteredNoRules(list: seq<Value>)
    ensures Filtered(list, []) == Ok(list)
    decreases |list|
  {
    if |list| > 0 {
      FilteredNoRules(list[1..]);
      assert [list[0]] + list[1..] == list;
    }
  }

  /** `filter` as written: for each record, the rules in turn until one
      rejects it (`break`); rejected records are dropped and the survivors
      reindexed. */
  method FilterList(list: seq<Value>, rules: seq<Rule>) returns (r: Result<seq<Value>>)
    ensures r == Filtered(list, rules)
  {
    var kept: seq<Value> := [];
    var i := 0;
    assert list[0..] == list;
    assert forall rest: seq<Value> :: [] + rest == rest;
    while i < |list|
      invariant 0 <= i <= |list|
      invariant Filtered(list, rules) == Prefixed(kept, Filtered(list[i..], rules))
    {
      var rec := list[i];
      var filtered := false;
      var j := 0;
      while j < |rules|
        invariant 0 <= j <= |rules|
        invariant Check(rules, rec) == Check(rules[j..], rec)
        invariant !filtered
      {
        var rule := rules[j];
        assert rules[j..][1..] == rules[j + 1..];
        if Comparison(rule.op) {
          var x := Property(rec, rule.field);
          if x.Err? {
            assert Check(rules[j..], rec) == Err(x.error);
            assert list[i..][0] == rec;
            return Err(x.error);
          }
          if Rejects(rule.op, Sc(rule.value), x.value) {
            filtered := true;
            break;
          }
        }
        j := j + 1;
      }
      assert Check(rules, rec) == Ok(!filtered);
      assert list[i..][1..] == list[i + 1..];
      if !filtered {
        assert forall rest: seq<Value> :: kept + ([rec] + rest) == (kept + [rec]) + rest;
        kept := kept + [rec];
      } else {
        assert forall rest: seq<Value> :: kept + ([] + rest) == kept + rest;
      }
      i := i + 1;
    }
    assert list[i..] == [];
    assert kept + [] == kept;
    r := Ok(kept);
  }

  function Prefixed(prefix: seq<Value>, r: Result<seq<Value>>): Result<seq<Value>>
  {
    match r
    case Ok(rest) => Ok(prefix + rest)
    case Err(e) => Err(e)
  }

  /** One rule in the query string: field, operator and value, unescaped. */
  function RuleText(rule: Rule): string
  {
    rule.field + rule.op + Text(rule.value)
  }

  /** Each rule's text, in order. */
  function RuleTexts(rules: seq<Rule>): (texts: seq<string>)
    ensures |texts| == |rules|
    ensures forall i :: 0 <= i < |rules| ==> texts[i] == RuleText(rules[i])
  {
    seq(|rules|, i requires 0 <= i < |rules| => RuleText(rules[i]))
  }

  /** The `filter=` parameter: the rules' texts joined by `;`, with no
      trailing separator. */
  function FilterParam(rules: seq<Rule>): (p: string)
    requires |rules| > 0
    ensures |p| >= 7 && p[..7] == "filter="
  {
    "filter=" + Implode(RuleTexts(rules), ';')
  }

  /** The first `i` rule texts joined, with the separator that follows them
      once there is one. */
  function JoinedSoFar(texts: seq<string>, i: nat, sep: char): string
    requires i <= |texts|
  {
    if i == 0 then "" else Implode(texts[..i], sep) + [sep]
  }

  /** Appending the next piece to the joined prefix joins one more; the
      separator after it gives the next prefix. */
  lemma ImplodeNext(pre: string, texts: seq<string>, i: nat, sep: char)
    requires i < |texts|
    ensures (pre + JoinedSoFar(texts, i, sep)) + texts[i] == pre + Implode(texts[..i + 1], sep)
    ensures (pre + Implode(texts[..i + 1], sep)) + [sep] == pre + JoinedSoFar(texts, i + 1, sep)
  {
    if i > 0 {
      ImplodeSnoc(texts[..i], texts[i], sep);
      assert texts[..i] + [texts[i]] == texts[..i + 1];
    } else {
      assert texts[..1] == [texts[0]];
    }
  }

  method RenderFilter(rules: seq<Rule>) returns (uri: string)
    requires |rules| > 0
    ensures uri == FilterParam(rules)
  {
    var texts := RuleTexts(rules);
    uri := "filter=";
    var i := 0;
    while true
      invariant 0 <= i < |rules|
      invariant uri == "filter=" + JoinedSoFar(texts, i, ';')
      decreases |rules| - i
    {
      ImplodeNext("filter=", texts, i, ';');
      uri := uri + RuleText(rules[i]);
      if i == |rules| - 1 {
        break;
      }
      uri := uri + ";";
      i := i + 1;
    }
    assert texts[..|rules|] == texts;
  }

  /** Joining one more piece appends a separator and the piece. */
  lemma {:induction false} ImplodeSnoc(parts: seq<string>, x: string, sep: char)
    requires |parts| >= 1
    ensures Implode(parts + [x], sep) == Implode(parts, sep) + [sep] + x
    decreases |parts|
  {
    if |parts| == 1 {
      assert (parts + [x])[1..] == [x];
    } else {
      assert (parts + [x])[1..] == parts[1..] + [x];
      ImplodeSnoc(parts[1..], x, sep);
    }
  }

  /** The parameter splits back into the rules' texts at `;` when no rule
      text contains one. */
  lemma FilterParamSplits(rules: seq<Rule>)
    requires |rules| > 0
    requires forall i :: 0 <= i < |rules| ==> ';' !in RuleText(rules[i])
    ensures Explode(FilterParam(rules)[7..], ';') == RuleTexts(rules)
  {
    var texts := RuleTexts(rules);
    assert FilterParam(rules)[7..] == Implode(texts, ';');
    ExplodeImplode(texts, ';');
  }

  /** The documented example: `[['sum', '>', '100'], ['sum', '<', '200']]`. */
  lemma FilterParamExample()
    ensures FilterParam([Rule("sum", ">", Str("100")), Rule("sum", "<", Str("200"))]) == "filter=sum>100;sum<200"
  {
    var rules := [Rule("sum", ">", Str("100")), Rule("sum", "<", Str("200"))];
    var texts := RuleTexts(rules);
    assert RuleText(rules[0]) == "sum>100";
    assert RuleText(rules[1]) == "sum<200";
    assert texts == ["sum>100", "sum<200"];
    assert Implode(texts, ';') == "sum>100" + [';'] + Implode(texts[1..], ';');
    assert texts[1..] == ["sum<200"];
  }
}
