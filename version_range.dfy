/**
 * The version arithmetic both determineVersionRange functions share: the
 * release list parsed with unparsable entries skipped, sorted, and
 * filtered by the constraint. The version type, its order, its parser and
 * the constraint belong to a library outside this model, so they are
 * parameters: `parse` stands for version.NewVersion, `le` for the order
 * version.Collection sorts by, and `check` for Constraints.Check.
 */
module VersionRange {
  import opened Wrappers

  /** The order is total and transitive, as the version comparison is. */
  ghost predicate TotalPreorder<V(!new)>(le: (V, V) -> bool) {
    && (forall a, b :: le(a, b) || le(b, a))
    && (forall a, b, c :: le(a, b) && le(b, c) ==> le(a, c))
  }

  predicate SortedBy<V>(s: seq<V>, le: (V, V) -> bool) {
    forall i, j :: 0 <= i < j < |s| ==> le(s[i], s[j])
  }

  /** The version strings that parse, in list order. */
  function Parsed<V>(rs: seq<string>, parse: string -> Option<V>): seq<V>
    decreases |rs|
  {
    if rs == [] then []
    else
      Parsed(rs[..|rs| - 1], parse) +
      (match parse(rs[|rs| - 1]) case None => [] case Some(v) => [v])
  }

  /** The versions the constraint accepts, in list order. */
  function Matching<V>(vs: seq<V>, check: V -> bool): seq<V>
    decreases |vs|
  {
    if vs == [] then []
    else Matching(vs[..|vs| - 1], check) + (if check(vs[|vs| - 1]) then [vs[|vs| - 1]] else [])
  }

  function Insert<V>(x: V, s: seq<V>, le: (V, V) -> bool): seq<V>
    decreases |s|
  {
    if s == [] then [x]
    else if le(x, s[0]) then [x] + s
    else [s[0]] + Insert(x, s[1..], le)
  }

  /** sort.Sort on a version collection, as an insertion sort. */
  function SortBy<V>(s: seq<V>, le: (V, V) -> bool): seq<V>
    decreases |s|
  {
    if s == [] then [] else Insert(s[0], SortBy(s[1..], le), le)
  }

  /** The matching versions in ascending order: what Min and Max are taken from. */
  function MatchingVersions<V>(rs: seq<string>, parse: string -> Option<V>, le: (V, V) -> bool, check: V -> bool): seq<V> {
    Matching(SortBy(Parsed(rs, parse), le), check)
  }

  lemma {:induction false} InsertPerm<V>(x: V, s: seq<V>, le: (V, V) -> bool)
    ensures multiset(Insert(x, s, le)) == multiset{x} + multiset(s)
    decreases |s|
  {
    if s != [] && !le(x, s[0]) {
      InsertPerm(x, s[1..], le);
      assert s == [s[0]] + s[1..];
    }
  }

  lemma {:induction false} InsertSorted<V(!new)>(x: V, s: seq<V>, le: (V, V) -> bool)
    requires TotalPreorder(le) && SortedBy(s, le)
    ensures SortedBy(Insert(x, s, le), le)
    decreases |s|
  {
    if s != [] {
      if le(x, s[0]) {
        var r := [x] + s;
        forall i, j | 0 <= i < j < |r| ensures le(r[i], r[j]) {
          if i == 0 && j > 1 {
            assert le(s[0], s[j - 1]);
          }
        }
      } else {
        var t := Insert(x, s[1..], le);
        InsertSorted(x, s[1..], le);
        InsertPerm(x, s[1..], le);
        var r := [s[0]] + t;
        forall j | 0 <= j < |t| ensures le(s[0], t[j]) {
          assert t[j] in multiset(t);
          if t[j] != x {
            assert t[j] in multiset(s[1..]);
            var k :| 0 <= k < |s[1..]| && s[1..][k] == t[j];
            assert s[k + 1] == t[j];
          }
        }
        forall i, j | 0 <= i < j < |r| ensures le(r[i], r[j]) {
          if i == 0 {
            assert r[j] == t[j - 1];
          } else {
            assert r[i] == t[i - 1] && r[j] == t[j - 1];
          }
        }
      }
    }
  }

  /** The sort returns the same versions, each as often as before. */
  lemma {:induction false} SortByPerm<V>(s: seq<V>, le: (V, V) -> bool)
    ensures multiset(SortBy(s, le)) == multiset(s)
    decreases |s|
  {
    if s != [] {
      SortByPerm(s[1..], le);
      InsertPerm(s[0], SortBy(s[1..], le), le);
      assert s == [s[0]] + s[1..];
    }
  }

  /** The sort returns the versions in ascending order. */
  lemma {:induction false} SortBySorted<V(!new)>(s: seq<V>, le: (V, V) -> bool)
    requires TotalPreorder(le)
    ensures SortedBy(SortBy(s, le), le)
    decreases |s|
  {
    if s != [] {
      SortBySorted(s[1..], le);
      InsertSorted(s[0], SortBy(s[1..], le), le);
    }
  }

  /** A version is among the parsed ones exactly when some listed string parses to it. */
  lemma {:induction false} ParsedMembers<V>(rs: seq<string>, parse: string -> Option<V>, v: V)
    ensures v in Parsed(rs, parse) <==> exists i :: 0 <= i < |rs| && parse(rs[i]) == Some(v)
    decreases |rs|
  {
    if rs != [] {
      var rs' := rs[..|rs| - 1];
      ParsedMembers(rs', parse, v);
      assert forall i :: 0 <= i < |rs'| ==> rs'[i] == rs[i];
    }
  }

  /** The filter keeps each accepted version as often as it occurs and drops every other. */
  lemma {:induction false} MatchingCount<V>(vs: seq<V>, check: V -> bool, v: V)
    ensures multiset(Matching(vs, check))[v] == if check(v) then multiset(vs)[v] else 0
    decreases |vs|
  {
    if vs != [] {
      var vs' := vs[..|vs| - 1];
      MatchingCount(vs', check, v);
      assert vs == vs' + [vs[|vs| - 1]];
    }
  }

  /** Filtering an ascending list leaves it ascending. */
  lemma {:induction false} MatchingSorted<V>(vs: seq<V>, check: V -> bool, le: (V, V) -> bool)
    requires SortedBy(vs, le)
    ensures SortedBy(Matching(vs, check), le)
    decreases |vs|
  {
    if vs != [] {
      var vs' := vs[..|vs| - 1];
      var last := vs[|vs| - 1];
      assert SortedBy(vs', le);
      MatchingSorted(vs', check, le);
      var m := Matching(vs', check);
      if check(last) {
        forall i | 0 <= i < |m| ensures le(m[i], last) {
          MatchingCount(vs', check, m[i]);
          assert m[i] in multiset(m);
          assert m[i] in multiset(vs');
          var k :| 0 <= k < |vs'| && vs'[k] == m[i];
        }
        var r := m + [last];
        forall i, j | 0 <= i < j < |r| ensures le(r[i], r[j]) {
          if j < |m| {
            assert r[i] == m[i] && r[j] == m[j];
          } else {
            assert r[i] == m[i];
          }
        }
      }
    }
  }

  /**
   * The matching versions are ascending, and hold each version that both
   * parses from the list and satisfies the constraint, as often as the
   * list yields it, and nothing else.
   */
  lemma MatchingVersionsMeaning<V(!new)>(rs: seq<string>, parse: string -> Option<V>, le: (V, V) -> bool, check: V -> bool, v: V)
    requires TotalPreorder(le)
    ensures SortedBy(MatchingVersions(rs, parse, le, check), le)
    ensures multiset(MatchingVersions(rs, parse, le, check))[v] == if check(v) then multiset(Parsed(rs, parse))[v] else 0
    ensures v in MatchingVersions(rs, parse, le, check) <==> check(v) && exists i :: 0 <= i < |rs| && parse(rs[i]) == Some(v)
  {
    var sorted := SortBy(Parsed(rs, parse), le);
    SortBySorted(Parsed(rs, parse), le);
    SortByPerm(Parsed(rs, parse), le);
    MatchingSorted(sorted, check, le);
    MatchingCount(sorted, check, v);
    ParsedMembers(rs, parse, v);
    assert v in MatchingVersions(rs, parse, le, check) <==> v in multiset(MatchingVersions(rs, parse, le, check));
    assert v in Parsed(rs, parse) <==> v in multiset(Parsed(rs, parse));
  }

  lemma Reflexive<V(!new)>(le: (V, V) -> bool, a: V)
    requires TotalPreorder(le)
    ensures le(a, a)
  {
    var b := a;
    assert le(a, b) || le(b, a);
  }

  /**
   * The first and last of an ascending list of accepted versions are its
   * least and greatest, both satisfy the constraint, and the first is not
   * above the last.
   */
  lemma EndsAreBounds<V(!new)>(m: seq<V>, le: (V, V) -> bool, check: V -> bool)
    requires TotalPreorder(le) && SortedBy(m, le) && m != []
    requires forall i :: 0 <= i < |m| ==> check(m[i])
    ensures check(m[0]) && check(m[|m| - 1]) && le(m[0], m[|m| - 1])
    ensures forall i :: 0 <= i < |m| ==> le(m[0], m[i]) && le(m[i], m[|m| - 1])
  {
    forall i | 0 <= i < |m| ensures le(m[0], m[i]) && le(m[i], m[|m| - 1]) {
      Reflexive(le, m[i]);
    }
  }

  /** Every version the filter keeps satisfies the constraint. */
  lemma {:induction false} MatchingAccepted<V>(vs: seq<V>, check: V -> bool)
    ensures forall i :: 0 <= i < |Matching(vs, check)| ==> check(Matching(vs, check)[i])
    decreases |vs|
  {
    if vs != [] {
      MatchingAccepted(vs[..|vs| - 1], check);
    }
  }

  /** Min and Max as chosen from the matching versions: the least and the greatest, both accepted. */
  lemma MatchingBounds<V(!new)>(rs: seq<string>, parse: string -> Option<V>, le: (V, V) -> bool, check: V -> bool)
    requires TotalPreorder(le)
    requires MatchingVersions(rs, parse, le, check) != []
    ensures var m := MatchingVersions(rs, parse, le, check);
      && check(m[0]) && check(m[|m| - 1]) && le(m[0], m[|m| - 1])
      && forall i :: 0 <= i < |m| ==> le(m[0], m[i]) && le(m[i], m[|m| - 1])
  {
    var m := MatchingVersions(rs, parse, le, check);
    SortBySorted(Parsed(rs, parse), le);
    MatchingSorted(SortBy(Parsed(rs, parse), le), check, le);
    MatchingAccepted(SortBy(Parsed(rs, parse), le), check);
    EndsAreBounds(m, le, check);
  }
}
