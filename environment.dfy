/** The environment a deployment script runs with (`configEnvs`,
    `dockerRegistriesAsEnvVar` and the environment assembly of
    `DeployService`), and the name of its log file. */
module Environment {
  import opened Results
  import opened Text
  import opened Quoting
  import opened Workspace

  /** `config.Config`: the directories and domain the scripts are told about. */
  datatype Config = Config(binaryDir: string, stateBosh: string, cfDomain: string,
                           servicesDir: string, logDir: string)

  const RegistriesKey := "DOCKER_REGISTRIES"

  /** The index of the first `=` in `entry`, or `|entry|` when it has none. */
  function SeparatorIndex(entry: string): (i: nat)
    ensures i <= |entry|
    ensures forall k :: 0 <= k < i ==> entry[k] != '='
    ensures i < |entry| ==> entry[i] == '='
  {
    if entry == [] || entry[0] == '=' then 0 else 1 + SeparatorIndex(entry[1..])
  }

  /** The `KEY=VALUE` reading of an environment entry: the text before the
      first `=` and the text after it; `None` when there is no `=`. */
  function SplitEntry(entry: string): Option<(string, string)>
  {
    var i := SeparatorIndex(entry);
    if i == |entry| then None else Some((entry[..i], entry[i + 1..]))
  }

  /** A key written before `=` is read back, with the value after it. */
  lemma SplitEntryRoundTrip(key: string, value: string)
    requires '=' !in key
    ensures SplitEntry(key + "=" + value) == Some((key, value))
  {
    var e := key + "=" + value;
    assert e[|key|] == '=';
    assert forall k :: 0 <= k < |key| ==> e[k] == key[k];
    assert SeparatorIndex(e) == |key|;
    assert e[..|key|] == key && e[|key| + 1..] == value;
  }

  /** The value the child process sees for `key`: the last `KEY=VALUE` entry
      with that key wins, as `os/exec` does with duplicated keys. */
  function Lookup(env: seq<string>, key: string): Option<string>
    decreases |env|
  {
    if env == [] then None
    else
      var last := SplitEntry(env[|env| - 1]);
      if last.Some? && last.value.0 == key then Some(last.value.1)
      else Lookup(env[..|env| - 1], key)
  }

  /** Entries appended later override earlier ones with the same key. */
  lemma {:induction false} LookupAppend(a: seq<string>, b: seq<string>, key: string)
    ensures Lookup(a + b, key) == if Lookup(b, key).Some? then Lookup(b, key) else Lookup(a, key)
    decreases |b|
  {
    if b == [] {
      assert a + b == a;
    } else {
      var ab := a + b;
      assert ab[|ab| - 1] == b[|b| - 1];
      assert ab[..|ab| - 1] == a + b[..|b| - 1];
      LookupAppend(a, b[..|b| - 1], key);
    }
  }

  /** `configEnvs`: the four entries every script receives. */
  function ConfigEnvs(cfg: Config): seq<string>
  {
    [ "BINARY_DIR=" + cfg.binaryDir,
      "BOSH_STATE=" + cfg.stateBosh,
      "CF_DOMAIN=" + cfg.cfDomain,
      "SERVICES_DIR=" + cfg.servicesDir ]
  }

  /** The keys `configEnvs` sets, in order. */
  const ConfigKeys := ["BINARY_DIR", "BOSH_STATE", "CF_DOMAIN", "SERVICES_DIR"]

  function ConfigValue(cfg: Config, k: nat): string
    requires k < 4
  {
    [cfg.binaryDir, cfg.stateBosh, cfg.cfDomain, cfg.servicesDir][k]
  }

  /** The config entries read back as exactly the four keys in order, each
      carrying its config field, and nothing for any other key. */
  lemma ConfigEnvsEntries(cfg: Config)
    ensures |ConfigEnvs(cfg)| == 4
    ensures forall k :: 0 <= k < 4 ==>
              SplitEntry(ConfigEnvs(cfg)[k]) == Some((ConfigKeys[k], ConfigValue(cfg, k)))
    ensures forall key :: key !in ConfigKeys ==> Lookup(ConfigEnvs(cfg), key) == None
  {
    var env := ConfigEnvs(cfg);
    forall k | 0 <= k < 4
      ensures SplitEntry(env[k]) == Some((ConfigKeys[k], ConfigValue(cfg, k)))
    {
      assert env[k] == ConfigKeys[k] + "=" + ConfigValue(cfg, k);
      SplitEntryRoundTrip(ConfigKeys[k], ConfigValue(cfg, k));
    }
    forall key | key !in ConfigKeys
      ensures Lookup(env, key) == None
    {
      forall j | 0 <= j < 4 ensures SplitEntry(env[j]).value.0 == ConfigKeys[j] { }
      LookupMisses(env, key);
    }
  }

  /** `strings.Join(items, sep)`. */
  function Join(items: seq<string>, sep: string): string
  {
    if items == [] then ""
    else if |items| == 1 then items[0]
    else items[0] + sep + Join(items[1..], sep)
  }

  /** Each registry quoted with `%q`, in order. */
  function QuoteAll(registries: seq<string>): (r: seq<string>)
    ensures |r| == |registries|
    ensures forall k :: 0 <= k < |r| ==> r[k] == Quote(registries[k])
  {
    seq(|registries|, k requires 0 <= k < |registries| => Quote(registries[k]))
  }

  /** The value of the `DOCKER_REGISTRIES` entry: the quoted registries,
      comma-separated, between square brackets. */
  function RegistriesValue(registries: seq<string>): string
  {
    "[" + Join(QuoteAll(registries), ",") + "]"
  }

  /** Reads a value written as `RegistriesValue` back into its registries. */
  function ParseRegistries(v: string): Option<seq<string>>
  {
    if v == "[]" then Some([])
    else if |v| > 0 && v[0] == '[' then ParseItems(v[1..])
    else None
  }

  /** Reads `"x1","x2",...,"xn"]` with n at least one. */
  function ParseItems(s: string): Option<seq<string>>
    decreases |s|
  {
    if s == [] || s[0] != '"' then None
    else match ReadQuoted(s[1..])
      case None => None
      case Some((item, rest)) =>
        if rest == "]" then Some([item])
        else if rest != [] && rest[0] == ',' then
          match ParseItems(rest[1..])
          case None => None
          case Some(items) => Some([item] + items)
        else None
  }

  /** One quoted item followed by `rest` is read as that item, then `rest`. */
  lemma ReadQuotedItem(item: string, rest: string)
    ensures var s := Quote(item) + rest;
            && s != [] && s[0] == '"'
            && ReadQuoted(s[1..]) == Some((item, rest))
  {
    var s := Quote(item) + rest;
    assert s[1..] == Escape(item) + "\"" + rest;
    ReadQuotedEscape(item, rest);
  }

  /** The last item of the list. */
  lemma ParseLastItem(item: string)
    ensures ParseItems(Quote(item) + "]") == Some([item])
  {
    ReadQuotedItem(item, "]");
  }

  /** An item followed by a comma and the items after it. */
  lemma ParseNextItem(item: string, more: string, items: seq<string>)
    requires ParseItems(more) == Some(items)
    ensures ParseItems(Quote(item) + ("," + more)) == Some([item] + items)
  {
    var rest := "," + more;
    ReadQuotedItem(item, rest);
    assert rest[1..] == more;
  }

  /** How the joined list splits at its first item. */
  lemma JoinQuotedFirst(registries: seq<string>)
    requires registries != []
    ensures |registries| == 1 ==> Join(QuoteAll(registries), ",") + "]" == Quote(registries[0]) + "]"
    ensures |registries| > 1 ==>
              Join(QuoteAll(registries), ",") + "]"
              == Quote(registries[0]) + ("," + (Join(QuoteAll(registries[1..]), ",") + "]"))
  {
    var quoted := QuoteAll(registries);
    assert quoted[0] == Quote(registries[0]);
    if |registries| > 1 {
      assert quoted[1..] == QuoteAll(registries[1..]);
    }
  }

  lemma {:induction false} ParseItemsJoin(registries: seq<string>)
    requires registries != []
    ensures ParseItems(Join(QuoteAll(registries), ",") + "]") == Some(registries)
    decreases |registries|
  {
    var head, tail := registries[0], registries[1..];
    JoinQuotedFirst(registries);
    if tail == [] {
      ParseLastItem(head);
      assert [head] == registries;
    } else {
      ParseItemsJoin(tail);
      ParseNextItem(head, Join(QuoteAll(tail), ",") + "]", tail);
      assert [head] + tail == registries;
    }
  }

  /** The `DOCKER_REGISTRIES` value is read back as exactly the registry
      list, whatever characters the registries contain. */
  lemma RegistriesRoundTrip(registries: seq<string>)
    ensures ParseRegistries(RegistriesValue(registries)) == Some(registries)
  {
    var inner := Join(QuoteAll(registries), ",") + "]";
    var v := RegistriesValue(registries);
    assert v == "[" + inner;
    if registries != [] {
      ParseItemsJoin(registries);
      JoinQuotedFirst(registries);
      assert |Quote(registries[0])| >= 2;
      assert |inner| > 1;
      assert v[1..] == inner;
    }
  }

  /** The `DOCKER_REGISTRIES=[...]` entry. */
  function RegistriesEntry(registries: seq<string>): string
  {
    RegistriesKey + "=" + RegistriesValue(registries)
  }

  /** `dockerRegistriesAsEnvVar`: quotes each registry into a list, then
      joins the list into the entry. */
  method DockerRegistriesAsEnvVar(registries: seq<string>) returns (entry: string)
    ensures entry == RegistriesEntry(registries)
    ensures SplitEntry(entry) == Some((RegistriesKey, RegistriesValue(registries)))
    ensures ParseRegistries(RegistriesValue(registries)) == Some(registries)
  {
    var arr: seq<string> := [];
    for i := 0 to |registries|
      invariant |arr| == i
      invariant forall k :: 0 <= k < i ==> arr[k] == Quote(registries[k])
    {
      arr := arr + [Quote(registries[i])];
    }
    assert arr == QuoteAll(registries);
    entry := "DOCKER_REGISTRIES=[" + Join(arr, ",") + "]";
    assert entry == RegistriesKey + "=" + RegistriesValue(registries);
    SplitEntryRoundTrip(RegistriesKey, RegistriesValue(registries));
    RegistriesRoundTrip(registries);
  }

  /** No registries give `DOCKER_REGISTRIES=[]`; plain registries `a` and
      `b` give `DOCKER_REGISTRIES=["a","b"]`. */
  lemma RegistriesEntryExamples()
    ensures RegistriesEntry([]) == "DOCKER_REGISTRIES=[]"
    ensures RegistriesEntry(["a", "b"]) == "DOCKER_REGISTRIES=[\"a\",\"b\"]"
  {
    QuotePlain("a");
    QuotePlain("b");
    assert "\"" + "a" + "\"" == "\"a\"" && "\"" + "b" + "\"" == "\"b\"";
    var q := QuoteAll(["a", "b"]);
    assert q == ["\"a\"", "\"b\""];
    assert q[1..] == ["\"b\""];
  }

  /** For registries made of plain characters, each item of the list is the
      registry between double quotes. */
  lemma PlainRegistries(registries: seq<string>)
    requires forall i, k :: 0 <= i < |registries| && 0 <= k < |registries[i]| ==> IsPlain(registries[i][k])
    ensures forall i :: 0 <= i < |registries| ==> QuoteAll(registries)[i] == "\"" + registries[i] + "\""
  {
    forall i | 0 <= i < |registries|
      ensures QuoteAll(registries)[i] == "\"" + registries[i] + "\""
    {
      QuotePlain(registries[i]);
    }
  }

  /** The environment `DeployService` gives the script: the inherited
      environment, the config entries, the workspace entries and, for a
      deployment whose kind starts with `cf`, the registries entry last. */
  function DeployEnv(inherited: seq<string>, cfg: Config, workspaceEnvs: seq<string>,
                     service: Service, registries: seq<string>): (env: seq<string>)
    ensures var base := inherited + ConfigEnvs(cfg) + workspaceEnvs;
            && |env| == |base| + (if HasPrefix(service.deployment, "cf") then 1 else 0)
            && env[..|base|] == base
            && (HasPrefix(service.deployment, "cf") ==> env[|base|] == RegistriesEntry(registries))
  {
    var env := inherited + ConfigEnvs(cfg) + workspaceEnvs;
    if HasPrefix(service.deployment, "cf") then env + [RegistriesEntry(registries)] else env
  }

  /** A config key carries its config field in the script's environment,
      whatever the inherited environment says, unless the workspace sets it. */
  lemma DeployEnvConfigLookup(inherited: seq<string>, cfg: Config, workspaceEnvs: seq<string>,
                              service: Service, registries: seq<string>, k: nat)
    requires k < 4 && Lookup(workspaceEnvs, ConfigKeys[k]) == None
    ensures Lookup(DeployEnv(inherited, cfg, workspaceEnvs, service, registries), ConfigKeys[k])
            == Some(ConfigValue(cfg, k))
  {
    var env := DeployEnv(inherited, cfg, workspaceEnvs, service, registries);
    var c := ConfigEnvs(cfg);
    var base := inherited + c + workspaceEnvs;
    ConfigLookup(cfg, k);
    LookupAppend(inherited + c, workspaceEnvs, ConfigKeys[k]);
    LookupAppend(inherited, c, ConfigKeys[k]);
    if HasPrefix(service.deployment, "cf") {
      assert env == base + [RegistriesEntry(registries)];
      LookupAppend(base, [RegistriesEntry(registries)], ConfigKeys[k]);
      SplitEntryRoundTrip(RegistriesKey, RegistriesValue(registries));
      assert Lookup([RegistriesEntry(registries)], ConfigKeys[k]) == None by {
        assert [RegistriesEntry(registries)][..0] == [];
      }
    } else {
      assert env == base;
    }
  }

  /** For a `cf` deployment the registries variable decodes to exactly the
      registry list. */
  lemma DeployEnvRegistriesSet(inherited: seq<string>, cfg: Config, workspaceEnvs: seq<string>,
                               service: Service, registries: seq<string>)
    requires HasPrefix(service.deployment, "cf")
    ensures var env := DeployEnv(inherited, cfg, workspaceEnvs, service, registries);
            Lookup(env, RegistriesKey) == Some(RegistriesValue(registries))
            && ParseRegistries(RegistriesValue(registries)) == Some(registries)
  {
    var env := DeployEnv(inherited, cfg, workspaceEnvs, service, registries);
    var base := inherited + ConfigEnvs(cfg) + workspaceEnvs;
    assert env == base + [RegistriesEntry(registries)];
    RegistriesKeyHasNoSeparator();
    SplitEntryRoundTrip(RegistriesKey, RegistriesValue(registries));
    RegistriesRoundTrip(registries);
  }

  /** For any other deployment the registries variable is whatever the
      inherited or workspace entries say. */
  lemma DeployEnvRegistriesUnset(inherited: seq<string>, cfg: Config, workspaceEnvs: seq<string>,
                                 service: Service, registries: seq<string>)
    requires !HasPrefix(service.deployment, "cf")
    ensures Lookup(DeployEnv(inherited, cfg, workspaceEnvs, service, registries), RegistriesKey)
            == Lookup(inherited + workspaceEnvs, RegistriesKey)
  {
    var c := ConfigEnvs(cfg);
    assert DeployEnv(inherited, cfg, workspaceEnvs, service, registries) == inherited + c + workspaceEnvs;
    RegistriesKeyHasNoSeparator();
    ConfigEnvsEntries(cfg);
    LookupAppend(inherited + c, workspaceEnvs, RegistriesKey);
    LookupAppend(inherited, c, RegistriesKey);
    LookupAppend(inherited, workspaceEnvs, RegistriesKey);
  }

  lemma RegistriesKeyHasNoSeparator()
    ensures '=' !in RegistriesKey
    ensures RegistriesKey !in ConfigKeys
  {
  }

  /** Looking a config key up in the config entries finds its field. */
  lemma ConfigLookup(cfg: Config, k: nat)
    requires k < 4
    ensures Lookup(ConfigEnvs(cfg), ConfigKeys[k]) == Some(ConfigValue(cfg, k))
  {
    ConfigEnvsEntries(cfg);
    var env := ConfigEnvs(cfg);
    assert env == env[..k] + [env[k]] + env[k + 1..];
    LookupAppend(env[..k] + [env[k]], env[k + 1..], ConfigKeys[k]);
    LookupAppend(env[..k], [env[k]], ConfigKeys[k]);
    assert Lookup(env[k + 1..], ConfigKeys[k]) == None by {
      forall j | k < j < 4 ensures SplitEntry(env[j]).value.0 != ConfigKeys[k] { }
      LookupMisses(env[k + 1..], ConfigKeys[k]);
    }
  }

  /** A key no entry carries is not found. */
  lemma {:induction false} LookupMisses(env: seq<string>, key: string)
    requires forall j :: 0 <= j < |env| ==> SplitEntry(env[j]).None? || SplitEntry(env[j]).value.0 != key
    ensures Lookup(env, key) == None
    decreases |env|
  {
    if env != [] {
      LookupMisses(env[..|env| - 1], key);
    }
  }

  /** The log file's name (`filepath.Join` with the log directory is not
      part of this model). */
  function LogFileName(serviceName: string): string
  {
    "deploy-" + Lower(serviceName) + ".log"
  }

  /** Two services share a log file exactly when their names agree up to case. */
  lemma LogFileNameCollision(a: string, b: string)
    ensures LogFileName(a) == LogFileName(b) <==> Lower(a) == Lower(b)
  {
    if LogFileName(a) == LogFileName(b) {
      var n := |LogFileName(a)|;
      assert LogFileName(a)[7..n - 4] == Lower(a);
      assert LogFileName(b)[7..n - 4] == Lower(b);
    }
  }
}
