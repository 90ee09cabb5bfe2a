/** The registry itself: a table of registrations that `Add` appends to and
    `Remove` splices, and the notification loops that push patches to the
    registered services. The network is an outbox: every patch the registry
    posts is appended to it, and a delivery oracle says whether the post
    succeeded. */
module RegistryServer {
  import opened Patches
  import opened RegistrySpec
  import opened RegistryFacts

  /** The inner collecting loop of the bootstrap push: the entry of `s` once
      for every required name equal to its service name. */
  method CollectMatches(s: Registration, required: seq<string>) returns (found: seq<PatchEntry>)
    ensures found == Matches(s, required)
  {
    found := [];
    for j := 0 to |required|
      invariant found + Matches(s, required[j..]) == Matches(s, required)
    {
      MatchesStep(s, required, j);
      if s.serviceName == required[j] {
        found := found + [EntryOf(s)];
      }
    }
    assert required[|required|..] == [];
  }

  /** The outer collecting loop of the bootstrap push: every registration's
      matches, in table order. */
  method CollectRequired(table: seq<Registration>, required: seq<string>) returns (added: seq<PatchEntry>)
    ensures added == BootstrapAdded(table, required)
  {
    added := [];
    for i := 0 to |table|
      invariant added + BootstrapAdded(table[i..], required) == BootstrapAdded(table, required)
    {
      BootstrapAddedStep(table, required, i);
      var found := CollectMatches(table[i], required);
      added := added + found;
    }
    assert table[|table|..] == [];
  }

  class Registry {
    /** The registrations, in the order they were added. */
    var registrations: seq<Registration>
    /** Every patch posted so far, in posting order: an observation of the
        network, not state the registry keeps. */
    ghost var outbox: seq<Send>

    /** The process-wide table starts empty. */
    constructor ()
      ensures registrations == [] && outbox == []
    {
      registrations := [];
      outbox := [];
    }

    /** Posts `p` to `url`; reports whether the post went through. */
    method SendPatch(p: Patch, url: string, deliver: Send -> bool) returns (ok: bool)
      modifies this`outbox
      ensures outbox == old(outbox) + [Send(url, p)]
      ensures ok == deliver(Send(url, p))
    {
      outbox := outbox + [Send(url, p)];
      ok := deliver(Send(url, p));
    }

    /** Appends `r`, pushes `r` its bootstrap patch, then announces `r` to the
        table. Only the bootstrap push decides the outcome; the registration
        stays whether or not it went through. */
    method Add(r: Registration, deliver: Send -> bool) returns (err: Outcome)
      modifies this
      ensures registrations == old(registrations) + [r]
      ensures outbox == old(outbox) + [Send(r.serviceUpdateURL, BootstrapPatch(registrations, r))]
                        + NotifySends(registrations, AnnounceAdded(r), deliver)
      ensures err == if deliver(Send(r.serviceUpdateURL, BootstrapPatch(registrations, r))) then Ok
                     else Err(DeliveryFailed(r.serviceUpdateURL))
    {
      registrations := registrations + [r];
      err := SendRequiredService(r, deliver);
      Notify(AnnounceAdded(r), deliver);
    }

    /** Sends to every consumer, one after the other, the part of `full` it
        requires; the table itself is only read. */
    method Notify(full: Patch, deliver: Send -> bool)
      modifies this`outbox
      ensures outbox == old(outbox) + NotifySends(registrations, full, deliver)
    {
      var i := 0;
      while i < |registrations|
        invariant 0 <= i <= |registrations|
        invariant outbox + NotifySends(registrations[i..], full, deliver)
               == old(outbox) + NotifySends(registrations, full, deliver)
      {
        assert registrations[i..][1..] == registrations[i + 1..];
        NotifyConsumer(registrations[i], full, deliver);
        i := i + 1;
      }
    }

    /** The work done for one consumer: for each required name in turn, collect
        the added and removed entries carrying it and post them when there are
        any; the first failed post ends the work for this consumer. */
    method NotifyConsumer(consumer: Registration, full: Patch, deliver: Send -> bool)
      modifies this`outbox
      ensures outbox == old(outbox)
                        + ConsumerSends(consumer.requiredServices, consumer.serviceUpdateURL, full, deliver)
    {
      var names, url := consumer.requiredServices, consumer.serviceUpdateURL;
      var j := 0;
      while j < |names|
        invariant 0 <= j <= |names|
        invariant outbox + ConsumerSends(names[j..], url, full, deliver)
               == old(outbox) + ConsumerSends(names, url, full, deliver)
      {
        assert names[j..][1..] == names[j + 1..];
        var added, foundAdded := CollectByName(full.added, names[j]);
        var removed, foundRemoved := CollectByName(full.removed, names[j]);
        var sendUpdate := foundAdded || foundRemoved;
        if sendUpdate {
          var ok := SendPatch(Patch(added, removed), url, deliver);
          if !ok {
            return;
          }
        }
        j := j + 1;
      }
    }

    /** Collects the bootstrap entries for `r` from the table, then posts them to
        `r`'s update URL even when nothing was collected. */
    method SendRequiredService(r: Registration, deliver: Send -> bool) returns (err: Outcome)
      modifies this`outbox
      ensures outbox == old(outbox) + [Send(r.serviceUpdateURL, BootstrapPatch(registrations, r))]
      ensures err == if deliver(Send(r.serviceUpdateURL, BootstrapPatch(registrations, r))) then Ok
                     else Err(DeliveryFailed(r.serviceUpdateURL))
    {
      var added := CollectRequired(registrations, r.requiredServices);
      var ok := SendPatch(Patch(added, []), r.serviceUpdateURL, deliver);
      err := if ok then Ok else Err(DeliveryFailed(r.serviceUpdateURL));
    }

    /** Removes the first registration with service URL `url`, after announcing
        its removal to the table while it is still there; fails, changing
        nothing and posting nothing, when no registration has that URL. */
    method Remove(url: string, deliver: Send -> bool) returns (err: Outcome)
      modifies this
      ensures FindURL(old(registrations), url).None? ==>
                err == Err(NotFound(url)) && registrations == old(registrations) && outbox == old(outbox)
      ensures FindURL(old(registrations), url).Some? ==>
                var i := FindURL(old(registrations), url).value;
                err == Ok
                && registrations == RemoveAt(old(registrations), i)
                && outbox == old(outbox) + NotifySends(old(registrations), AnnounceRemoved(old(registrations)[i]), deliver)
    {
      var i := 0;
      while i < |registrations|
        invariant 0 <= i <= |registrations|
        invariant registrations == old(registrations) && outbox == old(outbox)
        invariant forall j :: 0 <= j < i ==> registrations[j].serviceURL != url
      {
        if registrations[i].serviceURL == url {
          Notify(AnnounceRemoved(registrations[i]), deliver);
          registrations := registrations[..i] + registrations[i + 1..];
          return Ok;
        }
        i := i + 1;
      }
      return Err(NotFound(url));
    }
  }
}
