/** `DeployServices`: deploys the resolved services one after another,
    announcing each, and stops at the first failure. */
module Deployment {
  import opened Results
  import opened Workspace

  /** The UI line `ui.Say("Deploying %s...", name)` prints for a service. */
  function Announcement(s: Service): string
  {
    "Deploying " + s.name + "..."
  }

  /** One announcement per service, in order. */
  function Announcements(services: seq<Service>): (r: seq<string>)
    ensures |r| == |services|
    ensures forall k :: 0 <= k < |r| ==> r[k] == Announcement(services[k])
  {
    seq(|services|, k requires 0 <= k < |services| => Announcement(services[k]))
  }

  /** Every deployment among `services` succeeds. */
  predicate AllPass(services: seq<Service>, deploy: Service -> Outcome)
  {
    forall k :: 0 <= k < |services| ==> deploy(services[k]) == Pass
  }

  /** `DeployServices`, with `deploy` standing for `DeployService` (the
      script's exit status) and the goroutine plus the immediate wait in
      `report` taken as one synchronous call whose error `report` hands back.
      `announced` is what the UI was told and `deployed` the services whose
      deployment was started, both in order. */
  method DeployServices(services: seq<Service>, deploy: Service -> Outcome)
    returns (err: Outcome, announced: seq<string>, deployed: seq<Service>)
    ensures err == Pass <==> AllPass(services, deploy)
    ensures err == Pass ==> deployed == services && announced == Announcements(services)
    ensures err.Fail? ==>
              exists k :: 0 <= k < |services| && AllPass(services[..k], deploy) && deploy(services[k]) == err
                          && deployed == services[..k + 1] && announced == Announcements(services[..k + 1])
  {
    announced, deployed := [], [];
    for i := 0 to |services|
      invariant deployed == services[..i]
      invariant announced == Announcements(services[..i])
      invariant AllPass(services[..i], deploy)
    {
      var service := services[i];
      announced := announced + [Announcement(service)];
      deployed := deployed + [service];
      var result := deploy(service);
      assert services[..i + 1] == services[..i] + [service];
      if result.Fail? {
        assert AllPass(services[..i], deploy) && deploy(services[i]) == result;
        return result, announced, deployed;
      }
    }
    assert services[..|services|] == services;
    return Pass, announced, deployed;
  }

  /** Three services whose second deployment fails: two announcements, the
      second's error, and the third never started. */
  method SecondOfThreeFails()
  {
    var a, b, c := Service("A", "a", "a", "a"), Service("B", "b", "b", "b"), Service("C", "c", "c", "c");
    var deploy := (s: Service) => if s == b then Fail("exit status 1") else Pass;
    var err, announced, deployed := DeployServices([a, b, c], deploy);
    var all := [a, b, c];
    assert deploy(a) == Pass && deploy(b) == Fail("exit status 1");
    assert deploy(all[1]) != Pass;
    assert err.Fail?;
    var k :| 0 <= k < 3 && AllPass(all[..k], deploy) && deploy(all[k]) == err
             && deployed == all[..k + 1] && announced == Announcements(all[..k + 1]);
    assert k != 2 by { assert all[..2][1] == b; }
    assert k == 1;
    assert err == Fail("exit status 1");
    assert deployed == [a, b] && |announced| == 2;
    assert c !in deployed;
  }
}
