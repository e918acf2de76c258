# cfdev service provisioning: selection, environment and deployment order

This project models the service provisioning core of cfdev (`provision/services.go`). It has four parts.

- **Whitelist resolution.** `WhiteListServices`, with its helper `contains`, turns the user's free-form whitelist string and the workspace's service catalog into the ordered list of services to deploy:
  - services flagged `always-include` are always kept;
  - `all` keeps the whole catalog;
  - `""` and `none` keep only the always-include services;
  - any other string adds every catalog service whose lower-cased flag name occurs in the lower-cased whitelist, skipping names already present.
- **Single lookup.** `GetWhiteListedService` finds the first listed service whose lower-cased flag name occurs in a requested name. Otherwise it returns the "not a valid service" error.
- **Script environment.**
  - `configEnvs` builds the four config entries.
  - `dockerRegistriesAsEnvVar` renders the registry list as `DOCKER_REGISTRIES=[...]`, with each registry written by Go's `%q`.
  - `DeployService` assembles the child's environment in this order: the inherited entries, the config entries, the workspace entries, then the registry entry for `cf` deployments.
  - The model also includes the name of the per-service log file.
- **Deployment order.** `DeployServices` deploys the resolved services one after another and announces each one. It stops at the first failure and returns that failure.

The Dafny modules follow that structure:

| file | module | what it holds |
|---|---|---|
| `results.dfy` | `Results` | `Option`, `Result`, and a deployment `Outcome` |
| `text.dfy` | `Text` | the Go `strings` functions the core calls: `ToLower`, `TrimSpace`, `Contains`, `HasPrefix` |
| `workspace.dfy` | `Workspace` | `workspace.Service`, name predicates, subsequences |
| `whitelist.dfy` | `Whitelist` | `WhiteListServices`, `contains`, `GetWhiteListedService` |
| `quoting.dfy` | `Quoting` | `%q` on a string, and a reader showing the quoting can be undone |
| `environment.dfy` | `Environment` | `configEnvs`, `dockerRegistriesAsEnvVar`, the environment assembly of `DeployService`, the log file name |
| `deployment.dfy` | `Deployment` | the `DeployServices` loop |

How the model is built:

- **Loops become methods.** The loops that append to a local slice or return early from a scan are methods with loop invariants:
  - `WhiteListServices`
  - `contains` (as `ContainsName`)
  - `GetWhiteListedService`
  - `dockerRegistriesAsEnvVar`
  - `DeployServices`

  Each method is proved against a specification function (`Resolve`, `HasName`, `RegistriesEntry`) or states its result outright. The source's promises are then proved as lemmas about those functions.
- **`configEnvs` and the environment assembly are functions**, since they only build lists.
- **Environment reads use a lookup.** `Environment.Lookup` gives what the child process sees for a key: the last entry with that key wins, as with `os/exec`. It is used to state what each variable ends up holding.
- **`DeployServices` takes the deployment as a parameter.** `DeployService` plus `report` are passed in as a function from a service to its `Outcome`. The method returns the announcement trace and the list of services whose deployment started.

## Model

| member | source | states |
|---|---|---|
| Whitelist.ContainsName | provision/services.go:51-59 | `contains` is true exactly when some element has the given name |
| Whitelist.WhiteListServices | provision/services.go:17-39 | never returns an error; the result is `Resolve` of the whitelist and catalog: always-include services, then the reserved-word switch, then the de-duplicated substring matches |
| Whitelist.AlwaysIncludedMembers | provision/services.go:20-24 | the first loop collects exactly the catalog's services with flag name `always-include`, each as many times as the catalog holds it, and nothing else |
| Whitelist.AlwaysIncludedOrdered | provision/services.go:20-24 | the always-include services are kept in catalog order (a subsequence of the catalog) |
| Whitelist.ReservedWhiteLists | provision/services.go:20-30 | a normalized `all` returns the catalog unchanged; a normalized `""` or `none` returns the first loop's accumulation, which holds exactly the always-include services with their catalog multiplicities, in catalog order |
| Whitelist.NormalizeIgnoresPadding | provision/services.go:26 | the switch value ignores case and any white space around the whitelist, so `"  NONE  "` switches like `none` |
| Whitelist.AppendMatchingPrefix | provision/services.go:31-38 | the default branch keeps what was accumulated as a prefix, and appends only services whose lower-cased flag name occurs in the lower-cased, untrimmed whitelist |
| Whitelist.AppendMatchingOrdered | provision/services.go:32-36 | the services the default branch appends keep catalog order |
| Whitelist.AppendMatchingDistinct | provision/services.go:33-34 | appending only names not yet present keeps names pairwise distinct |
| Whitelist.AppendMatchingComplete | provision/services.go:32-36 | every selected catalog service is present by name afterwards, and no accumulated name is lost |
| Whitelist.DefaultWhiteList | provision/services.go:20-38 | for a non-reserved whitelist: the result starts with the always-include services in catalog order; every later element is a catalog service selected by the substring test, and the later elements keep catalog order |
| Whitelist.DefaultWhiteListComplete | provision/services.go:20-38 | for a non-reserved whitelist, every always-include or selected catalog service is present by name |
| Whitelist.ResolveDistinctNames | provision/services.go:33 | if catalog names are pairwise distinct, so are the names in every resolved list |
| Whitelist.SelectsExamples | provision/services.go:33 | the substring test (the same test as the lookup's at line 44): `redis` selects only the `redis` flag; `REDIS mysql` selects both `redis` and `mysql`, regardless of case |
| Whitelist.ResolveRedisExample | provision/services.go:26-38 | over the catalog [A always-include, B redis, C mysql], `redis` resolves to [A, B] |
| Whitelist.ResolveRedisMysqlExample | provision/services.go:26-38 | `REDIS mysql` resolves to [A, B, C] |
| Whitelist.ResolveNoneExample | provision/services.go:26-30 | `"  NONE  "` resolves to [A] only |
| Whitelist.GetWhiteListedService | provision/services.go:42-48 | returns the first listed service whose lower-cased flag name occurs in the lower-cased requested name; if there is none, returns the error `The service '<name>' is not a valid service` and no listed service matches |
| Environment.ConfigEnvsEntries | provision/services.go:114-121 | `configEnvs` has exactly four entries, in the order `BINARY_DIR`, `BOSH_STATE`, `CF_DOMAIN`, `SERVICES_DIR`, each carrying its config field; it sets no other key |
| Environment.ConfigLookup | provision/services.go:114-121 | looking up each config key in the config entries gives its config field |
| Environment.SplitEntryRoundTrip | provision/services.go:116-119 | an entry `KEY=VALUE` whose key has no `=` reads back as that key and value |
| Environment.LookupAppend | provision/services.go:94-96 | entries appended later override earlier entries with the same key |
| Environment.DockerRegistriesAsEnvVar | provision/services.go:123-130 | the entry is `DOCKER_REGISTRIES=[` + the `%q`-quoted registries joined by `,` + `]`; its key is `DOCKER_REGISTRIES`, and its value parses back to exactly the registry list |
| Environment.RegistriesRoundTrip | provision/services.go:126-129 | the bracketed, comma-joined list of quoted registries determines the registry list, whatever characters the registries contain |
| Environment.RegistriesEntryExamples | provision/services.go:123-130 | no registries give `DOCKER_REGISTRIES=[]`; the registries `a` and `b` give `DOCKER_REGISTRIES=["a","b"]` |
| Environment.PlainRegistries | provision/services.go:126 | a registry without quotes, backslashes or control characters is written as itself between double quotes |
| Environment.DeployEnv | provision/services.go:94-100 | the script's environment is the inherited entries, then the config entries, then the workspace entries; exactly one more entry, the registries entry, is appended last if and only if the deployment kind starts with `cf` |
| Environment.DeployEnvConfigLookup | provision/services.go:94-96 | a config key the workspace does not set holds its config field in the child, whatever the inherited environment says |
| Environment.DeployEnvRegistriesSet | provision/services.go:98-100 | for a `cf` deployment, `DOCKER_REGISTRIES` in the child decodes to exactly the registry list |
| Environment.DeployEnvRegistriesUnset | provision/services.go:94-100 | for any other deployment, `DOCKER_REGISTRIES` in the child is whatever the inherited or workspace entries give it |
| Environment.LogFileNameCollision | provision/services.go:102 | two services share a log file exactly when their names agree up to case |
| Quoting.QuoteRoundTrip | provision/services.go:126 | `%q` output starts with a quote and reads back to the original string: the quoting is injective |
| Quoting.QuotePlain | provision/services.go:126 | a string of plain characters is quoted by wrapping it in double quotes |
| Text.TrimSpaceSlice | provision/services.go:26 | `strings.TrimSpace` keeps the slice between a leading and a trailing run of white space, and that slice has no white space at either end |
| Text.TrimSpacePadded | provision/services.go:26 | `strings.TrimSpace` ignores white space added at either end |
| Deployment.DeployServices | provision/services.go:61-83 | returns success exactly when every deployment succeeds. On success, every service was announced once and deployed, in order. On the first failure, at index k: the services before k succeeded, services 0..k were announced and started, no later service was started, and the error is the one returned |

## Left out

- Process execution in `DeployService` is not modelled: `exec.Command`, `cmd.Run`, the stdout/stderr redirection, the creation and closing of the log file, and the error `os.Create` can return. The platform choice between PowerShell and direct execution (`provision/services.go:86-92`) is also out. All of these are operating-system I/O.
- Environment.LogFileName: covers only the file name; `filepath.Join` with the log directory is not modelled.
- Deployment.DeployServices: does not model the goroutine or the shared `errChan`. The launch followed by the blocking `report` is taken as one synchronous call.
- Deployment.DeployServices: treats `report`, `NewBosh` and `runner.NewBosh` as opaque. Their source is not part of this model, and the model assumes `report` returns the deployment's own error.
- Deployment.DeployServices: leaves out `time.Now` and the UI's formatting. The announcement is the formatted string.
- Environment.DeployEnv: takes `os.Environ()` and `Workspace.Envs()` as parameters, because both are external sources.
- Environment.Lookup: does not model Windows' case-insensitive comparison of environment keys. It ignores entries without `=`.
- Text.Lower: lower-cases only ASCII letters, because `strings.ToLower`'s Unicode case mapping is not modelled.
- Quoting.EscapeChar: exact for ASCII only. Go's `%q` (`strconv.Quote`) writes non-printable non-ASCII characters as `\u`/`\U` escapes; the model copies every non-ASCII character unchanged. The round trip `Quoting.QuoteRoundTrip` holds for the model's quoting.
- Quoting.Quote: Dafny strings are sequences of Unicode characters and cannot hold invalid UTF-8. `strconv.Quote` writes each byte of an invalid sequence as `\xHH`; registries containing such bytes are outside the model.
- Whitelist.WhiteListServices: returns values, so it does not model that the `all` branch hands back the caller's own slice, or Go's nil-versus-empty distinction.
- Whitelist.GetWhiteListedService: returns the service value, not a pointer to a copy of it.
- `driver/hyperv/network_test.go` is not part of this model. It is a Windows integration test of HyperV networking, made only of I/O against foreign systems.
