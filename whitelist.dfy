/** Resolution of the user's whitelist string into the services to deploy
    (`WhiteListServices`, `contains`) and lookup of one service by a
    requested name (`GetWhiteListedService`). */
module Whitelist {
  import opened Text
  import opened Results
  import opened Workspace

  /** The flag name of services that are deployed whatever the whitelist says. */
  const AlwaysInclude := "always-include"

  predicate IsAlwaysIncluded(s: Service)
  {
    s.flagname == AlwaysInclude
  }

  /** The whitelist as the reserved-word switch sees it: lower-cased, then trimmed. */
  function Normalize(whiteList: string): string
  {
    TrimSpace(Lower(whiteList))
  }

  predicate IsReserved(whiteList: string)
  {
    var n := Normalize(whiteList);
    n == "all" || n == "" || n == "none"
  }

  /** The matching test both the default branch and the lookup use: the
      service's lower-cased flag name occurs in the lower-cased `text` (the
      untrimmed whitelist, or the requested service name). */
  predicate Selects(text: string, s: Service)
  {
    Contains(Lower(text), Lower(s.flagname))
  }

  /** The always-include services of `catalog`, in catalog order. */
  function AlwaysIncluded(catalog: seq<Service>): seq<Service>
    decreases |catalog|
  {
    if catalog == [] then []
    else
      var last := catalog[|catalog| - 1];
      AlwaysIncluded(catalog[..|catalog| - 1]) + (if IsAlwaysIncluded(last) then [last] else [])
  }

  /** `acc` followed by each service of `catalog`, in order, that the whitelist
      selects and whose name is not yet in the accumulated list. */
  function AppendMatching(acc: seq<Service>, whiteList: string, catalog: seq<Service>): seq<Service>
    decreases |catalog|
  {
    if catalog == [] then acc
    else
      var prev := AppendMatching(acc, whiteList, catalog[..|catalog| - 1]);
      var s := catalog[|catalog| - 1];
      if Selects(whiteList, s) && !HasName(prev, s.name) then prev + [s] else prev
  }

  /** The services `WhiteListServices` resolves `whiteList` to. */
  function Resolve(whiteList: string, catalog: seq<Service>): seq<Service>
  {
    var n := Normalize(whiteList);
    if n == "all" then catalog
    else if n == "" || n == "none" then AlwaysIncluded(catalog)
    else AppendMatching(AlwaysIncluded(catalog), whiteList, catalog)
  }

  /** One more catalog service extends the always-include accumulation by at most that service. */
  lemma AlwaysIncludedStep(catalog: seq<Service>, i: nat)
    requires i < |catalog|
    ensures AlwaysIncluded(catalog[..i + 1])
            == AlwaysIncluded(catalog[..i]) + (if IsAlwaysIncluded(catalog[i]) then [catalog[i]] else [])
  {
    assert catalog[..i + 1][..i] == catalog[..i];
  }

  /** One more catalog service extends the default branch's result by at most that service. */
  lemma AppendMatchingStep(acc: seq<Service>, whiteList: string, catalog: seq<Service>, i: nat)
    requires i < |catalog|
    ensures var prev := AppendMatching(acc, whiteList, catalog[..i]);
            AppendMatching(acc, whiteList, catalog[..i + 1])
            == if Selects(whiteList, catalog[i]) && !HasName(prev, catalog[i].name) then prev + [catalog[i]] else prev
  {
    assert catalog[..i + 1][..i] == catalog[..i];
  }

  /** `contains`: whether some service in `services` has the name `name`. */
  method ContainsName(services: seq<Service>, name: string) returns (found: bool)
    ensures found <==> HasName(services, name)
  {
    for i := 0 to |services|
      invariant forall k :: 0 <= k < i ==> services[k].name != name
    {
      if services[i].name == name {
        return true;
      }
    }
    return false;
  }

  /** `WhiteListServices`: collects the always-include services, then
      switches on the normalized whitelist; never reports an error. */
  method WhiteListServices(whiteList: string, services: seq<Service>)
    returns (whiteListed: seq<Service>, err: Option<string>)
    ensures err == None
    ensures whiteListed == Resolve(whiteList, services)
  {
    whiteListed := [];
    for i := 0 to |services|
      invariant whiteListed == AlwaysIncluded(services[..i])
    {
      AlwaysIncludedStep(services, i);
      if services[i].flagname == AlwaysInclude {
        whiteListed := whiteListed + [services[i]];
      }
    }
    assert services[..|services|] == services;

    var normalized := Normalize(whiteList);
    if normalized == "all" {
      return services, None;
    } else if normalized == "" || normalized == "none" {
      return whiteListed, None;
    }
    ghost var always := whiteListed;
    for i := 0 to |services|
      invariant whiteListed == AppendMatching(always, whiteList, services[..i])
    {
      AppendMatchingStep(always, whiteList, services, i);
      if Contains(Lower(whiteList), Lower(services[i].flagname)) {
        var present := ContainsName(whiteListed, services[i].name);
        if !present {
          whiteListed := whiteListed + [services[i]];
        }
      }
    }
    assert services[..|services|] == services;
    return whiteListed, None;
  }

  function NotValidMessage(serviceName: string): string
  {
    "The service '" + serviceName + "' is not a valid service"
  }

  /** `GetWhiteListedService`: the first listed service that `serviceName`
      names, or the "not a valid service" error when there is none. */
  method GetWhiteListedService(serviceName: string, whiteList: seq<Service>) returns (r: Result<Service>)
    ensures r.Ok? ==> exists i :: 0 <= i < |whiteList| && r.value == whiteList[i]
                                  && Selects(serviceName, whiteList[i])
                                  && forall j :: 0 <= j < i ==> !Selects(serviceName, whiteList[j])
    ensures r.Err? ==> r.message == NotValidMessage(serviceName)
                       && forall j :: 0 <= j < |whiteList| ==> !Selects(serviceName, whiteList[j])
  {
    for i := 0 to |whiteList|
      invariant forall j :: 0 <= j < i ==> !Selects(serviceName, whiteList[j])
    {
      if Contains(Lower(serviceName), Lower(whiteList[i].flagname)) {
        return Ok(whiteList[i]);
      }
    }
    return Err(NotValidMessage(serviceName));
  }

  /** The always-include accumulation holds exactly the catalog's
      always-include services, each as many times as the catalog has it. */
  lemma {:induction false} AlwaysIncludedMembers(catalog: seq<Service>)
    ensures forall s :: multiset(AlwaysIncluded(catalog))[s]
                        == if IsAlwaysIncluded(s) then multiset(catalog)[s] else 0
    ensures forall s :: s in AlwaysIncluded(catalog) <==> s in catalog && IsAlwaysIncluded(s)
    decreases |catalog|
  {
    if catalog != [] {
      var init, last := catalog[..|catalog| - 1], catalog[|catalog| - 1];
      AlwaysIncludedMembers(init);
      assert catalog == init + [last];
      assert multiset(catalog) == multiset(init) + multiset{last};
      if IsAlwaysIncluded(last) {
        assert AlwaysIncluded(catalog) == AlwaysIncluded(init) + [last];
        assert multiset(AlwaysIncluded(catalog)) == multiset(AlwaysIncluded(init)) + multiset{last};
      } else {
        assert AlwaysIncluded(catalog) == AlwaysIncluded(init);
      }
    }
  }

  /** The always-include accumulation keeps catalog order. */
  lemma {:induction false} AlwaysIncludedOrdered(catalog: seq<Service>)
    ensures IsSubsequence(AlwaysIncluded(catalog), catalog)
    decreases |catalog|
  {
    if catalog != [] {
      var init, last := catalog[..|catalog| - 1], catalog[|catalog| - 1];
      AlwaysIncludedOrdered(init);
      assert catalog == init + [last];
      SubsequenceSnoc(AlwaysIncluded(init), init, last);
      if IsAlwaysIncluded(last) {
        assert AlwaysIncluded(catalog) == AlwaysIncluded(init) + [last];
      } else {
        assert AlwaysIncluded(catalog) == AlwaysIncluded(init);
      }
    }
  }

  /** `all` gives back the catalog untouched; the empty whitelist and `none`
      (in any case, with any surrounding white space) give exactly the
      always-include services, each as often as the catalog has it, in
      catalog order. */
  lemma ReservedWhiteLists(whiteList: string, catalog: seq<Service>)
    ensures Normalize(whiteList) == "all" ==> Resolve(whiteList, catalog) == catalog
    ensures Normalize(whiteList) == "" || Normalize(whiteList) == "none" ==>
              Resolve(whiteList, catalog) == AlwaysIncluded(catalog)
    ensures Normalize(whiteList) == "" || Normalize(whiteList) == "none" ==>
              var r := Resolve(whiteList, catalog);
              && (forall s :: multiset(r)[s] == if IsAlwaysIncluded(s) then multiset(catalog)[s] else 0)
              && IsSubsequence(r, catalog)
  {
    AlwaysIncludedMembers(catalog);
    AlwaysIncludedOrdered(catalog);
  }

  /** The reserved words are recognised whatever their case and whatever
      white space surrounds them. */
  lemma NormalizeIgnoresPadding(before: string, whiteList: string, after: string)
    requires AllSpace(before) && AllSpace(after)
    ensures Normalize(before + whiteList + after) == Normalize(whiteList)
    ensures Normalize(Lower(whiteList)) == Normalize(whiteList)
  {
    LowerAppend(before + whiteList, after);
    LowerAppend(before, whiteList);
    LowerSpace(before);
    LowerSpace(after);
    TrimSpacePadded(before, Lower(whiteList), after);
    LowerIsLowerCase(whiteList);
  }

  /** The default branch keeps `acc` as a prefix and appends only services
      the whitelist selects. */
  lemma {:induction false} AppendMatchingPrefix(acc: seq<Service>, whiteList: string, catalog: seq<Service>)
    ensures var r := AppendMatching(acc, whiteList, catalog);
            |acc| <= |r| && r[..|acc|] == acc
            && forall k :: |acc| <= k < |r| ==> Selects(whiteList, r[k])
    decreases |catalog|
  {
    if catalog != [] {
      var init, last := catalog[..|catalog| - 1], catalog[|catalog| - 1];
      AppendMatchingPrefix(acc, whiteList, init);
      var prev := AppendMatching(acc, whiteList, init);
      var r := AppendMatching(acc, whiteList, catalog);
      if Selects(whiteList, last) && !HasName(prev, last.name) {
        assert r == prev + [last];
        assert r[..|acc|] == prev[..|acc|];
      }
    }
  }

  /** What the default branch appends keeps catalog order. */
  lemma {:induction false} AppendMatchingOrdered(acc: seq<Service>, whiteList: string, catalog: seq<Service>)
    ensures var r := AppendMatching(acc, whiteList, catalog);
            |acc| <= |r| && IsSubsequence(r[|acc|..], catalog)
    decreases |catalog|
  {
    if catalog != [] {
      var init, last := catalog[..|catalog| - 1], catalog[|catalog| - 1];
      AppendMatchingOrdered(acc, whiteList, init);
      var prev := AppendMatching(acc, whiteList, init);
      var r := AppendMatching(acc, whiteList, catalog);
      assert catalog == init + [last];
      SubsequenceSnoc(prev[|acc|..], init, last);
      if r != prev {
        assert r[|acc|..] == prev[|acc|..] + [last];
      }
    }
  }

  /** No duplicate appends: the default branch adds a service only when its
      name is not yet present, so distinct names stay distinct. */
  lemma {:induction false} AppendMatchingDistinct(acc: seq<Service>, whiteList: string, catalog: seq<Service>)
    requires DistinctNames(acc)
    ensures DistinctNames(AppendMatching(acc, whiteList, catalog))
    decreases |catalog|
  {
    if catalog != [] {
      var init, last := catalog[..|catalog| - 1], catalog[|catalog| - 1];
      AppendMatchingDistinct(acc, whiteList, init);
      var prev := AppendMatching(acc, whiteList, init);
      if Selects(whiteList, last) && !HasName(prev, last.name) {
        var r := prev + [last];
        forall i, j | 0 <= i < j < |r|
          ensures r[i].name != r[j].name
        {
          if j == |prev| {
            assert r[i] == prev[i];
          }
        }
      }
    }
  }

  /** Every catalog service the whitelist selects ends up, by name, in the
      default branch's result, and nothing already accumulated is lost. */
  lemma {:induction false} AppendMatchingComplete(acc: seq<Service>, whiteList: string, catalog: seq<Service>)
    ensures var r := AppendMatching(acc, whiteList, catalog);
            forall i :: 0 <= i < |catalog| && Selects(whiteList, catalog[i]) ==> HasName(r, catalog[i].name)
    ensures forall name :: HasName(acc, name) ==> HasName(AppendMatching(acc, whiteList, catalog), name)
    decreases |catalog|
  {
    if catalog != [] {
      var init, last := catalog[..|catalog| - 1], catalog[|catalog| - 1];
      AppendMatchingComplete(acc, whiteList, init);
      var prev := AppendMatching(acc, whiteList, init);
      var r := AppendMatching(acc, whiteList, catalog);
      assert r == prev || r == prev + [last];
      assert forall name :: HasName(prev, name) ==> HasName(r, name) by {
        forall name | HasName(prev, name) ensures HasName(r, name) {
          var k :| 0 <= k < |prev| && prev[k].name == name;
          assert r[k] == prev[k];
        }
      }
      if Selects(whiteList, last) && !HasName(prev, last.name) {
        assert r[|prev|] == last;
      }
      forall i | 0 <= i < |catalog| && Selects(whiteList, catalog[i])
        ensures HasName(r, catalog[i].name)
      {
        if i < |init| {
          assert catalog[i] == init[i];
        }
      }
    }
  }

  /** Any other whitelist: the result starts with every always-include
      service in catalog order; each later element is a catalog service whose
      lower-cased flag name is a substring of the lower-cased, untrimmed
      whitelist, and the later elements keep catalog order. */
  lemma DefaultWhiteList(whiteList: string, catalog: seq<Service>)
    requires !IsReserved(whiteList)
    ensures var r, a := Resolve(whiteList, catalog), AlwaysIncluded(catalog);
            |a| <= |r| && r[..|a|] == a
            && (forall k :: |a| <= k < |r| ==> r[k] in catalog && Selects(whiteList, r[k]))
            && IsSubsequence(r[|a|..], catalog)
  {
    var r, a := Resolve(whiteList, catalog), AlwaysIncluded(catalog);
    AppendMatchingPrefix(a, whiteList, catalog);
    AppendMatchingOrdered(a, whiteList, catalog);
    SubsequenceMembers(r[|a|..], catalog);
    forall k | |a| <= k < |r| ensures r[k] in catalog {
      assert r[k] == r[|a|..][k - |a|];
    }
  }

  /** Any other whitelist: every always-include service and every service the
      whitelist selects is present by name. */
  lemma DefaultWhiteListComplete(whiteList: string, catalog: seq<Service>)
    requires !IsReserved(whiteList)
    ensures forall i :: 0 <= i < |catalog| && (IsAlwaysIncluded(catalog[i]) || Selects(whiteList, catalog[i]))
                        ==> HasName(Resolve(whiteList, catalog), catalog[i].name)
  {
    var a := AlwaysIncluded(catalog);
    AlwaysIncludedMembers(catalog);
    AppendMatchingComplete(a, whiteList, catalog);
    forall i | 0 <= i < |catalog| && IsAlwaysIncluded(catalog[i])
      ensures HasName(a, catalog[i].name)
    {
      assert catalog[i] in a;
    }
  }

  /** When catalog names are pairwise distinct, no resolved list holds two
      services with the same name. */
  lemma ResolveDistinctNames(whiteList: string, catalog: seq<Service>)
    requires DistinctNames(catalog)
    ensures DistinctNames(Resolve(whiteList, catalog))
  {
    AlwaysIncludedOrdered(catalog);
    SubsequenceDistinctNames(AlwaysIncluded(catalog), catalog);
    AppendMatchingDistinct(AlwaysIncluded(catalog), whiteList, catalog);
  }

  /** The catalog used by the examples below: `[A (always-include), B (redis), C (mysql)]`. */
  function ExampleCatalog(): (c: seq<Service>)
    ensures |c| == 3 && AlwaysIncluded(c) == [c[0]]
  {
    var c := [Service("A", AlwaysInclude, "a", "a"), Service("B", "redis", "b", "b"),
              Service("C", "mysql", "c", "c")];
    assert AlwaysIncluded(c[..1]) == [c[0]] by { assert c[..1][..0] == []; }
    assert AlwaysIncluded(c[..2]) == [c[0]] by { assert c[..2][..1] == c[..1]; }
    assert c[..3][..2] == c[..2];
    c
  }

  lemma NormalizeRedis()
    ensures Normalize("redis") == "redis"
  {
    assert Lower("redis") == "redis";
    TrimSpaceUnchanged("redis");
  }

  lemma NormalizeRedisMysql()
    ensures Normalize("REDIS mysql") == "redis mysql"
  {
    LowerRedisMysql();
    TrimSpaceUnchanged("redis mysql");
  }

  lemma NormalizePaddedNone()
    ensures Normalize("  NONE  ") == "none"
  {
    assert AllSpace("  ") by { assert IsSpace(' '); }
    assert "  NONE  " == "  " + "NONE" + "  ";
    NormalizeIgnoresPadding("  ", "NONE", "  ");
    NormalizeNone();
  }

  lemma NormalizeNone()
    ensures Normalize("NONE") == "none"
  {
    assert Lower("NONE") == "none";
    TrimSpaceUnchanged("none");
  }

  lemma LowerRedisMysql()
    ensures Lower("REDIS mysql") == "redis mysql"
  {
    assert Lower("REDIS") == "redis" && Lower(" mysql") == " mysql";
    LowerAppend("REDIS", " mysql");
    assert "REDIS" + " mysql" == "REDIS mysql";
  }

  lemma SelectsExamples()
    ensures var c := ExampleCatalog();
            && !Selects("redis", c[0]) && Selects("redis", c[1]) && !Selects("redis", c[2])
            && !Selects("REDIS mysql", c[0]) && Selects("REDIS mysql", c[1]) && Selects("REDIS mysql", c[2])
  {
    var c := ExampleCatalog();
    assert Lower("redis") == "redis" && Lower("mysql") == "mysql";
    assert Selects("redis", c[1]) by { assert OccursAt("redis", "redis", 0); }
    LowerRedisMysql();
    assert Selects("REDIS mysql", c[1]) by { assert OccursAt("redis mysql", "redis", 0); }
    assert Selects("REDIS mysql", c[2]) by { assert OccursAt("redis mysql", "mysql", 6); }
  }

  /** `redis` selects `[A, B]`. */
  lemma ResolveRedisExample()
    ensures var c := ExampleCatalog(); Resolve("redis", c) == [c[0], c[1]]
  {
    var c := ExampleCatalog();
    NormalizeRedis();
    SelectsExamples();
    assert c[..0] == [] && c[..3] == c;
    assert AppendMatching([c[0]], "redis", c[..1]) == [c[0]] by {
      AppendMatchingStep([c[0]], "redis", c, 0);
    }
    assert AppendMatching([c[0]], "redis", c[..2]) == [c[0], c[1]] by {
      AppendMatchingStep([c[0]], "redis", c, 1);
      assert !HasName([c[0]], c[1].name);
    }
    assert AppendMatching([c[0]], "redis", c) == [c[0], c[1]] by {
      AppendMatchingStep([c[0]], "redis", c, 2);
    }
  }

  /** `REDIS mysql` selects `[A, B, C]`: matching ignores case. */
  lemma ResolveRedisMysqlExample()
    ensures var c := ExampleCatalog(); Resolve("REDIS mysql", c) == [c[0], c[1], c[2]]
  {
    var c := ExampleCatalog();
    NormalizeRedisMysql();
    SelectsExamples();
    assert c[..0] == [] && c[..3] == c;
    assert AppendMatching([c[0]], "REDIS mysql", c[..1]) == [c[0]] by {
      AppendMatchingStep([c[0]], "REDIS mysql", c, 0);
    }
    assert AppendMatching([c[0]], "REDIS mysql", c[..2]) == [c[0], c[1]] by {
      AppendMatchingStep([c[0]], "REDIS mysql", c, 1);
      assert !HasName([c[0]], c[1].name);
    }
    assert AppendMatching([c[0]], "REDIS mysql", c) == [c[0], c[1], c[2]] by {
      AppendMatchingStep([c[0]], "REDIS mysql", c, 2);
      assert !HasName([c[0], c[1]], c[2].name);
    }
  }

  /** `  NONE  ` behaves as `none`: only `[A]`. */
  lemma ResolveNoneExample()
    ensures var c := ExampleCatalog(); Resolve("  NONE  ", c) == [c[0]]
  {
    NormalizePaddedNone();
  }
}
