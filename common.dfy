/** Shared vocabulary: optional values, results, the error kinds the library
    raises, and the string helpers PHP provides (decimal rendering of
    integers, `explode`, ASCII case mapping). */
module Common {

  datatype Option<+T> = None | Some(value: T)

  datatype Result<+T> = Ok(value: T) | Err(error: Error)

  /** Every exception the modelled core throws, by cause. */
  datatype Error =
    | MissingMeta                          // an object without `meta` given to the Entity constructor
    | FieldNotFound(field: string)         // __get of a field that is neither stored, `id`, nor an attribute
    | ReadOnlyField(field: string)         // __set of a read-only field
    | AttributeNotFound(attribute: string) // af() of a name with no memoized definition
    | MetadataNotFound(entityType: string) // getMetadata of an unknown entity type
    | StateNotFound(key: string, needle: string)
    | NotPersisted                         // remove() of an entity without meta.href
    | AmbiguousEvent                       // getAuditEvent matched more than one event
    | NoMatchingEvent                      // getAuditEvent matched no event
    | TypeMismatch(expected: string)       // a PHP TypeError at a declared parameter or return type
    | NoClient                             // a client call on an entity built without a client
    | WrongStockType(stockType: string)    // getCurrentStock of an unknown stock type
    | HiddenMember(member: string)         // a protected member read from outside its class hierarchy

  /** Decimal digits of a natural number, most significant first. */
  function NatToString(n: nat): (s: string)
    decreases n
    ensures |s| >= 1
    ensures forall i :: 0 <= i < |s| ==> '0' <= s[i] <= '9'
  {
    if n < 10 then [(48 + n) as char]
    else NatToString(n / 10) + [(48 + n % 10) as char]
  }

  /** PHP's conversion of an int to string (`"" . $n`). */
  function IntToString(i: int): (s: string)
    ensures |s| >= 1
    ensures forall k :: 0 <= k < |s| ==> s[k] == '-' || '0' <= s[k] <= '9'
  {
    if i < 0 then "-" + NatToString(-i) else NatToString(i)
  }

  /** PHP's `explode(sep, s)`: the maximal pieces of `s` between separators. */
  function Explode(s: string, sep: char): (parts: seq<string>)
    decreases |s|
    ensures |parts| >= 1
    ensures forall i :: 0 <= i < |parts| ==> sep !in parts[i]
  {
    if |s| == 0 then [""]
    else if s[0] == sep then [""] + Explode(s[1..], sep)
    else
      var rest := Explode(s[1..], sep);
      [[s[0]] + rest[0]] + rest[1..]
  }

  /** Joins pieces with a separator (the inverse of Explode). */
  function Implode(parts: seq<string>, sep: char): string
    decreases |parts|
  {
    if |parts| == 0 then ""
    else if |parts| == 1 then parts[0]
    else parts[0] + [sep] + Implode(parts[1..], sep)
  }

  function Last<T>(s: seq<T>): T
    requires |s| > 0
  {
    s[|s| - 1]
  }

  /** Exploding and joining back gives the original string. */
  lemma {:induction false} ImplodeExplode(s: string, sep: char)
    ensures Implode(Explode(s, sep), sep) == s
    decreases |s|
  {
    if |s| == 0 {
    } else {
      ImplodeExplode(s[1..], sep);
      var rest := Explode(s[1..], sep);
      if s[0] == sep {
        assert Explode(s, sep) == [""] + rest;
        assert ([""] + rest)[1..] == rest;
        assert [s[0]] + s[1..] == s;
      } else {
        var parts := [[s[0]] + rest[0]] + rest[1..];
        assert Explode(s, sep) == parts;
        if |rest| == 1 {
          assert [s[0]] + s[1..] == s;
        } else {
          assert parts[1..] == rest[1..];
          assert Implode(rest, sep) == rest[0] + [sep] + Implode(rest[1..], sep);
          assert [s[0]] + s[1..] == s;
        }
      }
    }
  }

  /** The last piece of `a + [sep] + b` is the last piece of `b`. */
  lemma {:induction false} LastPieceAfterSeparator(a: string, sep: char, b: string)
    ensures |Explode(a + [sep] + b, sep)| >= 2
    ensures Last(Explode(a + [sep] + b, sep)) == Last(Explode(b, sep))
    decreases |a|
  {
    var s := a + [sep] + b;
    if |a| == 0 {
      assert s[0] == sep && s[1..] == b;
    } else {
      assert s[0] == a[0] && s[1..] == a[1..] + [sep] + b;
      LastPieceAfterSeparator(a[1..], sep, b);
      var rest := Explode(s[1..], sep);
      if s[0] != sep {
        var parts := [[s[0]] + rest[0]] + rest[1..];
        assert Last(parts) == Last(rest);
      }
    }
  }

  /** A string without the separator explodes to itself alone. */
  lemma {:induction false} ExplodeWithoutSeparator(s: string, sep: char)
    requires sep !in s
    ensures Explode(s, sep) == [s]
    decreases |s|
  {
    if |s| > 0 {
      assert sep !in s[1..] by {
        forall k | 0 <= k < |s| - 1 ensures s[1..][k] != sep { assert s[1..][k] == s[k + 1]; }
      }
      ExplodeWithoutSeparator(s[1..], sep);
      assert [s[0]] + s[1..] == s;
    }
  }

  /** The last piece of `s` is the suffix after its last separator (or all
      of `s` when there is none). */
  lemma {:induction false} LastPieceIsSuffix(s: string, sep: char) returns (k: nat)
    ensures k <= |s| && s[k..] == Last(Explode(s, sep))
    ensures if |Explode(s, sep)| == 1 then k == 0 else k > 0 && s[k - 1] == sep
    decreases |s|
  {
    if |s| == 0 {
      k := 0;
    } else {
      var k' := LastPieceIsSuffix(s[1..], sep);
      var rest := Explode(s[1..], sep);
      if s[0] == sep {
        k := k' + 1;
        assert Explode(s, sep) == [""] + rest;
      } else {
        var parts := [[s[0]] + rest[0]] + rest[1..];
        assert Explode(s, sep) == parts;
        if |rest| == 1 {
          k := 0;
          assert rest[0] == s[1..];
          assert [s[0]] + s[1..] == s;
        } else {
          k := k' + 1;
          assert Last(parts) == Last(rest);
        }
      }
    }
  }

  /** A separator-free head splits off as the first piece. */
  lemma {:induction false} ExplodeSplit(a: string, sep: char, b: string)
    requires sep !in a
    ensures Explode(a + [sep] + b, sep) == [a] + Explode(b, sep)
    decreases |a|
  {
    var s := a + [sep] + b;
    if |a| == 0 {
      assert s[0] == sep && s[1..] == b;
    } else {
      assert s[0] == a[0] && s[1..] == a[1..] + [sep] + b;
      assert sep !in a[1..] by {
        forall k | 0 <= k < |a| - 1 ensures a[1..][k] != sep { assert a[1..][k] == a[k + 1]; }
      }
      ExplodeSplit(a[1..], sep, b);
      assert [a[0]] + a[1..] == a;
    }
  }

  /** Joining separator-free pieces and exploding gives the pieces back. */
  lemma {:induction false} ExplodeImplode(parts: seq<string>, sep: char)
    requires |parts| >= 1
    requires forall i :: 0 <= i < |parts| ==> sep !in parts[i]
    ensures Explode(Implode(parts, sep), sep) == parts
    decreases |parts|
  {
    if |parts| == 1 {
      ExplodeWithoutSeparator(parts[0], sep);
    } else {
      ExplodeImplode(parts[1..], sep);
      ExplodeSplit(parts[0], sep, Implode(parts[1..], sep));
      assert [parts[0]] + parts[1..] == parts;
    }
  }

  function UpperChar(c: char): char
  {
    if 'a' <= c <= 'z' then (c as int - 32) as char else c
  }

  function LowerChar(c: char): char
  {
    if 'A' <= c <= 'Z' then (c as int + 32) as char else c
  }

  /** `mb_strtoupper`, restricted to ASCII letters. */
  function Upper(s: string): (r: string)
    ensures |r| == |s|
    ensures forall i :: 0 <= i < |s| ==> r[i] == UpperChar(s[i])
  {
    seq(|s|, i requires 0 <= i < |s| => UpperChar(s[i]))
  }

  /** `mb_strtolower`, restricted to ASCII letters. */
  function Lower(s: string): (r: string)
    ensures |r| == |s|
    ensures forall i :: 0 <= i < |s| ==> r[i] == LowerChar(s[i])
  {
    seq(|s|, i requires 0 <= i < |s| => LowerChar(s[i]))
  }

  /** Concatenation is associative; stated once so that proofs need not
      rebuild it from the sequence axioms. */
  lemma ConcatAssoc<T>(a: seq<T>, b: seq<T>, c: seq<T>)
    ensures (a + b) + c == a + (b + c)
  {
  }

  /** The three parts of a concatenation read back by slicing. */
  lemma ConcatSlices<T>(a: seq<T>, b: seq<T>, c: seq<T>)
    ensures |a + b + c| == |a| + |b| + |c|
    ensures (a + b + c)[..|a|] == a
    ensures (a + b + c)[|a|..|a| + |b|] == b
    ensures (a + b + c)[|a| + |b|..] == c
  {
  }

  /** No element occurs in a sequence more often than its length. */
  lemma {:induction false} CountWithinLength<T>(s: seq<T>, x: T)
    ensures multiset(s)[x] <= |s|
    decreases |s|
  {
    if |s| > 0 {
      CountWithinLength(s[1..], x);
      assert s == [s[0]] + s[1..];
      assert multiset(s) == multiset([s[0]]) + multiset(s[1..]);
    }
  }

  lemma ConcatEmpty<T>(a: seq<T>)
    ensures a + [] == a
  {
  }
}
