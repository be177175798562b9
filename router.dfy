// Routing-key and binding-key validation and routing decisions (mqserver/route.hpp).
module Router {
  import opened Wrappers
  import opened Helper

  datatype ExchangeType = Direct | Fanout | Topic

  predicate IsAlnum(c: char)
  {
    ('a' <= c <= 'z') || ('A' <= c <= 'Z') || ('0' <= c <= '9')
  }

  /** Characters allowed in a routing key. */
  predicate IsRoutingChar(c: char)
  {
    IsAlnum(c) || c == '_' || c == '.'
  }

  /** router::is_legal_routing_key: the scan stops at the first character that is
      not a letter, digit, '_' or '.'. */
  function IsLegalRoutingKey(key: string): (legal: bool)
    ensures legal <==> forall i :: 0 <= i < |key| ==> IsRoutingChar(key[i])
    decreases |key|
  {
    if |key| == 0 then true
    else if IsRoutingChar(key[0]) then
      var rest := IsLegalRoutingKey(key[1..]);
      assert forall i :: 1 <= i < |key| ==> key[i] == key[1..][i - 1];
      rest
    else false
  }

  // ---------------------------------------------------------------------------
  // is_legal_binding_key
  // ---------------------------------------------------------------------------

  /** The character filter of route.hpp:29 as written: `ch == '_' && ch == '.'`
      can never hold, so '_' and '.' are refused. */
  predicate IsBindingCharAsWritten(c: char)
  {
    IsAlnum(c) || (c == '_' && c == '.') || c == '*' || c == '#'
  }

  /** The character filter the tests and the '.'-separated key format call for. */
  predicate IsBindingChar(c: char)
  {
    IsAlnum(c) || c == '_' || c == '.' || c == '*' || c == '#'
  }

  /** Step 2: a wildcard must be a whole segment. */
  predicate WildcardsStandAlone(segs: seq<string>)
  {
    forall i :: 0 <= i < |segs| ==> |segs[i]| > 1 ==> '*' !in segs[i] && '#' !in segs[i]
  }

  /** Step 3: no "*.#", "#.#" or "#.*" between neighbouring segments. */
  predicate NoAdjacentWildcards(segs: seq<string>)
  {
    forall i :: 1 <= i < |segs| ==>
      !(segs[i] == "#" && segs[i - 1] == "*") &&
      !(segs[i] == "#" && segs[i - 1] == "#") &&
      !(segs[i] == "*" && segs[i - 1] == "#")
  }


  /** router::is_legal_binding_key exactly as written. */
  predicate IsLegalBindingKeyAsWritten(key: string)
  {
    var segs := Split(key, {'.'});
    (forall i :: 0 <= i < |key| ==> IsBindingCharAsWritten(key[i])) && WildcardsStandAlone(segs) && NoAdjacentWildcards(segs)
  }

  /** router::is_legal_binding_key with the character filter corrected. */
  predicate IsLegalBindingKey(key: string)
  {
    var segs := Split(key, {'.'});
    (forall i :: 0 <= i < |key| ==> IsBindingChar(key[i])) && WildcardsStandAlone(segs) && NoAdjacentWildcards(segs)
  }

  /** As written, no key with more than one segment, and no key with '_', is ever
      legal: every such key is refused by the character filter. */
  lemma BindingKeyAsWrittenRefusesSeparators(key: string)
    requires '.' in key || '_' in key
    ensures !IsLegalBindingKeyAsWritten(key)
  {
    var i :| 0 <= i < |key| && (key[i] == '.' || key[i] == '_');
    assert !IsBindingCharAsWritten(key[i]);
  }

  /** The first binding-key case of route_test.cc is refused as written. */
  lemma BindingKeyAsWrittenRefusesTestKey()
    ensures !IsLegalBindingKeyAsWritten("news.music.pop")
  {
    BindingKeyAsWrittenRefusesSeparators("news.music.pop");
  }

  /** The corrected filter accepts exactly what the written one accepts, plus '_'
      and '.'. */
  lemma BindingCharCorrection(c: char)
    ensures IsBindingChar(c) <==> IsBindingCharAsWritten(c) || c == '_' || c == '.'
  {
  }

  // ---------------------------------------------------------------------------
  // Topic matching
  // ---------------------------------------------------------------------------

  /** Binding segments against routing segments: "*" matches exactly one segment,
      "#" matches zero or more, any other segment matches itself. */
  function Matches(b: seq<string>, r: seq<string>): bool
    decreases |b| + |r|
  {
    if |b| == 0 then |r| == 0
    else if b[0] == "#" then Matches(b[1..], r) || (|r| > 0 && Matches(b, r[1..]))
    else |r| > 0 && (b[0] == "*" || b[0] == r[0]) && Matches(b[1..], r[1..])
  }

  predicate NoWildcard(segs: seq<string>)
  {
    forall i :: 0 <= i < |segs| ==> segs[i] != "*" && segs[i] != "#"
  }

  /** Without wildcards a binding key matches exactly the identical routing key. */
  lemma {:induction false} MatchesLiteral(b: seq<string>, r: seq<string>)
    requires NoWildcard(b)
    ensures Matches(b, r) <==> b == r
    decreases |b| + |r|
  {
    if |b| > 0 && |r| > 0 {
      MatchesLiteral(b[1..], r[1..]);
      if b[1..] == r[1..] && b[0] == r[0] {
        assert b == [b[0]] + b[1..] && r == [r[0]] + r[1..];
      }
    }
  }

  /** A lone "#" matches every routing key. */
  lemma {:induction false} HashMatchesAll(r: seq<string>)
    ensures Matches(["#"], r)
    decreases |r|
  {
    assert ["#"][1..] == [];
    if |r| > 0 {
      HashMatchesAll(r[1..]);
    }
  }

  /** A "#" in front absorbs any number of extra leading segments. */
  lemma {:induction false} HashAbsorbs(b: seq<string>, x: seq<string>, r: seq<string>)
    requires Matches(b, r)
    ensures Matches(["#"] + b, x + r)
    decreases |x|
  {
    var hb := ["#"] + b;
    assert hb[1..] == b;
    if |x| > 0 {
      HashAbsorbs(b, x[1..], r);
      assert (x + r)[1..] == x[1..] + r;
    } else {
      assert x + r == r;
    }
  }

  /** "*" stands for exactly one segment. */
  lemma StarMatchesOne(r: seq<string>)
    ensures Matches(["*"], r) <==> |r| == 1
  {
    assert ["*"][1..] == [];
  }

  /** router::route as written: the Topic branch has no return statement, so a
      Topic exchange yields no defined result. */
  function RouteAsWritten(t: ExchangeType, routingKey: string, bindingKey: string): Option<bool>
  {
    match t
    case Direct => Some(routingKey == bindingKey)
    case Fanout => Some(true)
    case Topic => None
  }

  /** The first Topic case of route_test.cc expects a match; as written there is
      no result at all, while the corrected route gives the expected one. */
  lemma TopicRouteAsWrittenUndefined()
    ensures RouteAsWritten(Topic, "aaa", "aaa") == None
    ensures Route(Topic, "aaa", "aaa")
  {
    assert Split("aaa", {'.'}) == ["aaa"] by {
      SplitNoSeparator("aaa", {'.'});
    }
    assert Matches(["aaa"], ["aaa"]) by {
      MatchesLiteral(["aaa"], ["aaa"]);
    }
  }

  /** router::route with the Topic matching the routing tests call for
      (route_test.cc:50-126): both keys are cut at '.' and the segments matched
      with "*" and "#". */
  function Route(t: ExchangeType, routingKey: string, bindingKey: string): bool
  {
    match t
    case Direct => routingKey == bindingKey
    case Fanout => true
    case Topic => Matches(Split(bindingKey, {'.'}), Split(routingKey, {'.'}))
  }

  /** The corrected route agrees with the written one wherever that one returns. */
  lemma RouteExtendsAsWritten(t: ExchangeType, routingKey: string, bindingKey: string)
    ensures RouteAsWritten(t, routingKey, bindingKey).Some? ==> RouteAsWritten(t, routingKey, bindingKey).value == Route(t, routingKey, bindingKey)
  {
  }

  /** Binding "#" on a Topic exchange behaves like a Fanout binding. */
  lemma TopicHashIsFanout(routingKey: string)
    ensures Route(Topic, routingKey, "#") == Route(Fanout, routingKey, "")
  {
    SplitNoSeparator("#", {'.'});
    HashMatchesAll(Split(routingKey, {'.'}));
  }

  // ---------------------------------------------------------------------------
  // The cases of route_test.cc
  // ---------------------------------------------------------------------------

  function JoinDots(segs: seq<string>): string
    requires |segs| >= 1
  {
    if |segs| == 1 then segs[0] else segs[0] + "." + JoinDots(segs[1..])
  }

  /** A dotted key starts with its first segment. */
  lemma AboutJoinDots(segs: seq<string>)
    requires |segs| >= 1
    ensures JoinDots(segs)[..|segs[0]|] == segs[0]
  {
  }

  /** Non-empty segments without '.' joined by single dots split back into themselves. */
  lemma {:induction false} SplitJoinDots(segs: seq<string>)
    requires |segs| >= 1
    requires forall i :: 0 <= i < |segs| ==> |segs[i]| > 0 && '.' !in segs[i]
    ensures Split(JoinDots(segs), {'.'}) == segs
    decreases |segs|
  {
    if |segs| == 1 {
      SplitNoSeparator(segs[0], {'.'});
    } else {
      var head, tail := segs[0], segs[1..];
      assert forall i :: 0 <= i < |tail| ==> |tail[i]| > 0 && '.' !in tail[i] by {
        forall i | 0 <= i < |tail|
          ensures |tail[i]| > 0 && '.' !in tail[i]
        {
          assert tail[i] == segs[i + 1];
        }
      }
      SplitJoinDots(tail);
      var rest := JoinDots(tail);
      assert forall i :: 0 <= i < |head| ==> head[i] !in {'.'} by {
        forall i | 0 <= i < |head|
          ensures head[i] !in {'.'}
        {
          assert head[i] in head;
        }
      }
      assert rest[0] !in {'.'} by {
        AboutJoinDots(tail);
        assert rest[0] == tail[0][0];
        assert tail[0][0] in tail[0];
      }
      SplitWord(head, '.', rest, {'.'});
      assert JoinDots(segs) == head + ['.'] + rest;
      assert segs == [head] + tail;
    }
  }

  /** Every character of a dotted key is a binding character exactly when every
      character of every segment is. */
  lemma {:induction false} BindingCharsJoinDots(segs: seq<string>)
    requires |segs| >= 1
    ensures (forall i :: 0 <= i < |JoinDots(segs)| ==> IsBindingChar(JoinDots(segs)[i])) <==> SegmentCharsLegal(segs)
    decreases |segs|
  {
    if |segs| > 1 {
      var tail := segs[1..];
      BindingCharsJoinDots(tail);
      var rest := JoinDots(tail);
      var key := segs[0] + "." + rest;
      assert JoinDots(segs) == key;
      assert forall j :: 0 <= j < |segs[0]| ==> key[j] == segs[0][j];
      assert key[|segs[0]|] == '.';
      assert forall j :: 0 <= j < |rest| ==> key[|segs[0]| + 1 + j] == rest[j];
      assert forall i :: 1 <= i < |segs| ==> segs[i] == tail[i - 1];
      var keyOk := forall i :: 0 <= i < |key| ==> IsBindingChar(key[i]);
      var headOk := forall j :: 0 <= j < |segs[0]| ==> IsBindingChar(segs[0][j]);
      var restOk := forall j :: 0 <= j < |rest| ==> IsBindingChar(rest[j]);
      assert keyOk <==> headOk && restOk by {
        if headOk && restOk {
          forall i | 0 <= i < |key| ensures IsBindingChar(key[i]) {
            if i > |segs[0]| {
              assert key[i] == rest[i - |segs[0]| - 1];
            }
          }
        }
      }
      assert SegmentCharsLegal(segs) <==> headOk && SegmentCharsLegal(tail) by {
        if headOk && SegmentCharsLegal(tail) {
          forall i, j | 0 <= i < |segs| && 0 <= j < |segs[i]| ensures IsBindingChar(segs[i][j]) {
            if i > 0 {
              assert segs[i][j] == tail[i - 1][j];
            }
          }
        }
      }
    } else {
      assert JoinDots(segs) == segs[0];
      assert SegmentCharsLegal(segs) <==> forall j :: 0 <= j < |segs[0]| ==> IsBindingChar(segs[0][j]);
    }
  }

  predicate SegmentCharsLegal(segs: seq<string>)
  {
    forall i, j :: 0 <= i < |segs| && 0 <= j < |segs[i]| ==> IsBindingChar(segs[i][j])
  }

  /** The legality conditions of a binding key, stated on its segments. */
  predicate LegalSegments(segs: seq<string>)
  {
    SegmentCharsLegal(segs) && WildcardsStandAlone(segs) && NoAdjacentWildcards(segs)
  }

  /** Legality of a dotted key is legality of its segments. */
  lemma BindingKeyBySegments(segs: seq<string>)
    requires |segs| >= 1
    requires forall i :: 0 <= i < |segs| ==> |segs[i]| > 0 && '.' !in segs[i]
    ensures IsLegalBindingKey(JoinDots(segs)) <==> LegalSegments(segs)
  {
    SplitJoinDots(segs);
    BindingCharsJoinDots(segs);
  }

  /** Route on a Topic exchange for dotted keys is matching of their segments. */
  lemma TopicCase(b: seq<string>, r: seq<string>)
    requires |b| >= 1 && |r| >= 1
    requires forall i :: 0 <= i < |b| ==> |b[i]| > 0 && '.' !in b[i]
    requires forall i :: 0 <= i < |r| ==> |r[i]| > 0 && '.' !in r[i]
    ensures Route(Topic, JoinDots(r), JoinDots(b)) == Matches(b, r)
  {
    SplitJoinDots(b);
    SplitJoinDots(r);
  }

  // The cases of route_test.cc, in the test's order.  The dotted keys of the
  // binding-key and Topic cases are stated on their segments; BindingKeyBySegments
  // and TopicCase carry them over to the keys themselves.


  /** Routing key r1. */
  lemma RoutingKeyTestCase1(key: string)
    requires key == "news.music.pop"
    ensures IsLegalRoutingKey(key)
  {
    assert forall i :: 0 <= i < |key| ==> IsRoutingChar(key[i]);
  }

  /** Routing key r2. */
  lemma RoutingKeyTestCase2(key: string)
    requires key == "news..music.pop"
    ensures IsLegalRoutingKey(key)
  {
    assert forall i :: 0 <= i < |key| ==> IsRoutingChar(key[i]);
  }

  /** Routing key r3. */
  lemma RoutingKeyTestCase3(key: string)
    requires key == "news.,music.pop"
    ensures !IsLegalRoutingKey(key)
  {
    assert !IsRoutingChar(key[5]);
  }

  /** Routing key r4. */
  lemma RoutingKeyTestCase4(key: string)
    requires key == "news.music_123.pop"
    ensures IsLegalRoutingKey(key)
  {
    assert forall i :: 0 <= i < |key| ==> IsRoutingChar(key[i]);
  }

  /** Binding key b1, "news.music.pop", by its segments. */
  lemma BindingKeyTestCase1(segs: seq<string>)
    requires segs == ["news", "music", "pop"]
    ensures LegalSegments(segs)
  {
    assert SegmentCharsLegal(segs) by {
      assert forall j :: 0 <= j < |segs[0]| ==> IsBindingChar(segs[0][j]);
      assert forall j :: 0 <= j < |segs[1]| ==> IsBindingChar(segs[1][j]);
      assert forall j :: 0 <= j < |segs[2]| ==> IsBindingChar(segs[2][j]);
    }
    assert WildcardsStandAlone(segs);
    assert NoAdjacentWildcards(segs);
  }

  /** Binding key b2, "news.#.music.pop", by its segments. */
  lemma BindingKeyTestCase2(segs: seq<string>)
    requires segs == ["news", "#", "music", "pop"]
    ensures LegalSegments(segs)
  {
    assert SegmentCharsLegal(segs) by {
      assert forall j :: 0 <= j < |segs[0]| ==> IsBindingChar(segs[0][j]);
      assert forall j :: 0 <= j < |segs[1]| ==> IsBindingChar(segs[1][j]);
      assert forall j :: 0 <= j < |segs[2]| ==> IsBindingChar(segs[2][j]);
      assert forall j :: 0 <= j < |segs[3]| ==> IsBindingChar(segs[3][j]);
    }
    assert WildcardsStandAlone(segs);
    assert NoAdjacentWildcards(segs);
  }

  /** Binding key b3, "news.#.*.music.pop", by its segments. */
  lemma BindingKeyTestCase3(segs: seq<string>)
    requires segs == ["news", "#", "*", "music", "pop"]
    ensures !LegalSegments(segs)
  {
    assert segs[2] == "*" && segs[1] == "#";
  }

  /** Binding key b4, "news.*.#.music.pop", by its segments. */
  lemma BindingKeyTestCase4(segs: seq<string>)
    requires segs == ["news", "*", "#", "music", "pop"]
    ensures !LegalSegments(segs)
  {
    assert segs[2] == "#" && segs[1] == "*";
  }

  /** Binding key b5, "news.#.#.music.pop", by its segments. */
  lemma BindingKeyTestCase5(segs: seq<string>)
    requires segs == ["news", "#", "#", "music", "pop"]
    ensures !LegalSegments(segs)
  {
    assert segs[2] == "#" && segs[1] == "#";
  }

  /** Binding key b6, "news.*.*.music.pop", by its segments. */
  lemma BindingKeyTestCase6(segs: seq<string>)
    requires segs == ["news", "*", "*", "music", "pop"]
    ensures LegalSegments(segs)
  {
    assert SegmentCharsLegal(segs) by {
      assert forall j :: 0 <= j < |segs[0]| ==> IsBindingChar(segs[0][j]);
      assert forall j :: 0 <= j < |segs[1]| ==> IsBindingChar(segs[1][j]);
      assert forall j :: 0 <= j < |segs[2]| ==> IsBindingChar(segs[2][j]);
      assert forall j :: 0 <= j < |segs[3]| ==> IsBindingChar(segs[3][j]);
      assert forall j :: 0 <= j < |segs[4]| ==> IsBindingChar(segs[4][j]);
    }
    assert WildcardsStandAlone(segs);
    assert NoAdjacentWildcards(segs);
  }

  /** Binding key b7, "news.music_123.pop", by its segments. */
  lemma BindingKeyTestCase7(segs: seq<string>)
    requires segs == ["news", "music_123", "pop"]
    ensures LegalSegments(segs)
  {
    assert SegmentCharsLegal(segs) by {
      assert forall j :: 0 <= j < |segs[0]| ==> IsBindingChar(segs[0][j]);
      assert forall j :: 0 <= j < |segs[1]| ==> IsBindingChar(segs[1][j]);
      assert forall j :: 0 <= j < |segs[2]| ==> IsBindingChar(segs[2][j]);
    }
    assert WildcardsStandAlone(segs);
    assert NoAdjacentWildcards(segs);
  }

  /** Binding key b8, "news.,music_123.pop", by its segments. */
  lemma BindingKeyTestCase8(segs: seq<string>)
    requires segs == ["news", ",music_123", "pop"]
    ensures !LegalSegments(segs)
  {
    assert !IsBindingChar(segs[1][0]);
  }

  /** Binding key b9, "#", by its segments. */
  lemma BindingKeyTestCase9(segs: seq<string>)
    requires segs == ["#"]
    ensures LegalSegments(segs)
  {
    assert SegmentCharsLegal(segs) by {
      assert forall j :: 0 <= j < |segs[0]| ==> IsBindingChar(segs[0][j]);
    }
    assert WildcardsStandAlone(segs);
    assert NoAdjacentWildcards(segs);
  }

  /** Topic cases 1 to 7: Matches(binding segments, routing segments). */
  lemma TopicTestCases1()
    ensures Matches(["aaa"], ["aaa"])
    ensures Matches(["aaa", "bbb"], ["aaa", "bbb"])
    ensures !Matches(["aaa", "bbb"], ["aaa", "bbb", "ccc"])
    ensures !Matches(["aaa", "bbb"], ["aaa", "ccc"])
    ensures !Matches(["aaa", "#", "bbb"], ["aaa", "bbb", "ccc"])
    ensures !Matches(["aaa", "bbb", "#"], ["aaa", "ccc", "bbb"])
    ensures !Matches(["#", "bbb", "ccc"], ["aaa", "bbb", "ccc", "ddd"])
  {
  }

  /** Topic cases 8 to 14: Matches(binding segments, routing segments). */
  lemma TopicTestCases2()
    ensures Matches(["aaa", "bbb", "ccc"], ["aaa", "bbb", "ccc"])
    ensures Matches(["aaa", "*"], ["aaa", "bbb"])
    ensures !Matches(["aaa", "*", "bbb"], ["aaa", "bbb", "ccc"])
    ensures !Matches(["*", "aaa", "bbb"], ["aaa", "bbb"])
    ensures Matches(["#"], ["aaa", "bbb", "ccc"])
    ensures Matches(["aaa", "#"], ["aaa", "bbb"])
    ensures Matches(["aaa", "#"], ["aaa", "bbb", "ccc"])
  {
  }

  /** Topic cases 15 to 21: Matches(binding segments, routing segments). */
  lemma TopicTestCases3()
    ensures Matches(["aaa", "#", "ccc"], ["aaa", "ccc"])
    ensures Matches(["aaa", "#", "ccc"], ["aaa", "bbb", "ccc"])
    ensures Matches(["aaa", "#", "ccc"], ["aaa", "aaa", "bbb", "ccc"])
    ensures Matches(["#", "ccc"], ["ccc"])
    ensures Matches(["#", "ccc"], ["aaa", "bbb", "ccc"])
    ensures Matches(["aaa", "#", "ccc", "ccc"], ["aaa", "bbb", "ccc", "ccc", "ccc"])
    ensures Matches(["aaa", "#", "bbb", "*", "bbb"], ["aaa", "ddd", "ccc", "bbb", "eee", "bbb"])
  {
  }
}
