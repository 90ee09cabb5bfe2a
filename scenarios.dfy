/** Two runs of the registry on concrete services, with every delivery
    succeeding: what each update URL receives follows from the operations'
    contracts alone. */
module Scenarios {
  import opened Patches
  import opened RegistrySpec
  import opened RegistryServer

  /** svcA registers with no dependencies, svcB registers requiring svcA, then
      svcA deregisters: svcB is told about svcA on arrival and on departure. */
  method RegisterThenDeregister() returns (ghost sends: seq<Send>, table: seq<Registration>)
    ensures sends == [
      Send("http://a/updates", Patch([], [])),
      Send("http://b/updates", Patch([PatchEntry("svcA", "http://a")], [])),
      Send("http://b/updates", Patch([], [PatchEntry("svcA", "http://a")]))]
    ensures table == [Registration("svcB", "http://b", ["svcA"], "http://b/updates")]
  {
    var always := (s: Send) => true;
    var a := Registration("svcA", "http://a", [], "http://a/updates");
    var b := Registration("svcB", "http://b", ["svcA"], "http://b/updates");
    var reg := new Registry();
    var entryA := PatchEntry("svcA", "http://a");
    var errA := reg.Add(a, always);
    assert [a][1..] == [];
    assert BootstrapAdded([a], []) == [];
    assert BootstrapPatch([a], a) == Patch([], []);
    assert NotifySends([a], AnnounceAdded(a), always) == [];
    var errB := reg.Add(b, always);
    assert reg.registrations == [a, b];
    assert Matches(a, ["svcA"]) == [entryA];
    assert Matches(b, ["svcA"]) == [];
    assert BootstrapAdded([b], ["svcA"]) == [];
    assert BootstrapPatch([a, b], b) == Patch([entryA], []);
    assert IsEmpty(ConsumerPatch(AnnounceAdded(b), "svcA"));
    assert ConsumerSends(["svcA"], "http://b/updates", AnnounceAdded(b), always) == [];
    assert NotifySends([b], AnnounceAdded(b), always) == [];
    assert NotifySends([a, b], AnnounceAdded(b), always) == [];
    assert FindURL([a, b], "http://a") == Some(0);
    var errDel := reg.Remove("http://a", always);
    var gone := AnnounceRemoved(a);
    assert ConsumerPatch(gone, "svcA") == Patch([], [entryA]);
    assert ConsumerSends(["svcA"], "http://b/updates", gone, always) == [Send("http://b/updates", Patch([], [entryA]))];
    assert NotifySends([b], gone, always) == [Send("http://b/updates", Patch([], [entryA]))];
    assert NotifySends([a, b], gone, always) == [Send("http://b/updates", Patch([], [entryA]))];
    sends, table := reg.outbox, reg.registrations;
  }

  /** A (requiring C), B (requiring nothing) and C register in that order, then
      C deregisters: of all the posts the removal makes, only A's update URL
      hears of it, and A and B stay registered. */
  method SelectiveFanOut() returns (ghost sends: seq<Send>, table: seq<Registration>)
    ensures sends == [Send("http://a/updates", Patch([], [PatchEntry("C", "http://c")]))]
    ensures table == [Registration("A", "http://a", ["C"], "http://a/updates"),
                      Registration("B", "http://b", [], "http://b/updates")]
  {
    var always := (s: Send) => true;
    var a := Registration("A", "http://a", ["C"], "http://a/updates");
    var b := Registration("B", "http://b", [], "http://b/updates");
    var c := Registration("C", "http://c", [], "http://c/updates");
    var reg := new Registry();
    var errA := reg.Add(a, always);
    var errB := reg.Add(b, always);
    var errC := reg.Add(c, always);
    assert reg.registrations == [a, b, c];
    ghost var before := reg.outbox;
    RemoveCFromAbc(a, b, c, always);
    var err := reg.Remove("http://c", always);
    sends := reg.outbox[|before|..];
    table := reg.registrations;
  }

  /** What removing C finds and posts in the table [A, B, C] of SelectiveFanOut. */
  lemma RemoveCFromAbc(a: Registration, b: Registration, c: Registration, always: Send -> bool)
    requires a == Registration("A", "http://a", ["C"], "http://a/updates")
    requires b == Registration("B", "http://b", [], "http://b/updates")
    requires c == Registration("C", "http://c", [], "http://c/updates")
    requires forall s :: always(s)
    ensures FindURL([a, b, c], "http://c") == Some(2)
    ensures NotifySends([a, b, c], AnnounceRemoved(c), always)
         == [Send("http://a/updates", Patch([], [PatchEntry("C", "http://c")]))]
  {
    var gone := AnnounceRemoved(c);
    var toA := Send("http://a/updates", Patch([], [PatchEntry("C", "http://c")]));
    assert [a, b, c][1..] == [b, c] && [b, c][1..] == [c];
    assert "http://a" != "http://c" && "http://b" != "http://c";
    assert FindURL([c], "http://c") == Some(0);
    assert FindURL([b, c], "http://c") == Some(1);
    assert ConsumerPatch(gone, "C") == Patch([], [PatchEntry("C", "http://c")]);
    assert ConsumerSends(["C"], "http://a/updates", gone, always) == [toA];
    assert NotifySends([c], gone, always) == [];
    assert NotifySends([b, c], gone, always) == [];
  }
}
