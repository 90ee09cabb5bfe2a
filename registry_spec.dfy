/** The registry's data model and the functions that say, for a given table,
    what each operation sends and where: the bootstrap patch a new service gets,
    the filtered patches each consumer gets, and which entry a removal takes out. */
module RegistrySpec {
  import opened Patches

  datatype Option<T> = None | Some(value: T)

  /** A service's declared presence: its name, its URL, the names it needs
      updates about, and the endpoint the registry pushes patches to. */
  datatype Registration = Registration(
    serviceName: string,
    serviceURL: string,
    requiredServices: seq<string>,
    serviceUpdateURL: string)

  /** One patch pushed over the network to one update URL. */
  datatype Send = Send(url: string, patch: Patch)

  datatype Error =
    | DeliveryFailed(url: string)  // a patch could not be posted to this update URL
    | NotFound(url: string)        // no registration has this service URL

  datatype Outcome = Ok | Err(error: Error)

  /** The fact "this service is available at this URL". */
  function EntryOf(r: Registration): PatchEntry {
    PatchEntry(r.serviceName, r.serviceURL)
  }

  /** The patch announcing a new registration: it adds, never removes, and a
      consumer's patch for a name is non-empty exactly for the new service's name. */
  function AnnounceAdded(r: Registration): (p: Patch)
    ensures p.removed == []
    ensures forall n :: IsEmpty(ConsumerPatch(p, n)) <==> n != r.serviceName
  {
    assert [EntryOf(r)][1..] == [];
    Patch([EntryOf(r)], [])
  }

  /** The patch announcing a registration about to be removed: it removes, never
      adds, and a consumer's patch for a name is non-empty exactly for its name. */
  function AnnounceRemoved(r: Registration): (p: Patch)
    ensures p.added == []
    ensures forall n :: IsEmpty(ConsumerPatch(p, n)) <==> n != r.serviceName
  {
    assert [EntryOf(r)][1..] == [];
    Patch([], [EntryOf(r)])
  }

  // ----- Bootstrap patch -----

  /** How often `n` occurs in `names`. */
  function Occurrences(names: seq<string>, n: string): nat {
    if names == [] then 0 else (if names[0] == n then 1 else 0) + Occurrences(names[1..], n)
  }

  /** How many registrations in `table` carry the service name `n`. */
  function CountName(table: seq<Registration>, n: string): nat {
    if table == [] then 0 else (if table[0].serviceName == n then 1 else 0) + CountName(table[1..], n)
  }

  /** The entries one registration contributes to a bootstrap patch:
      one for each required name equal to its service name. */
  function Matches(s: Registration, required: seq<string>): (r: seq<PatchEntry>)
    ensures |r| == Occurrences(required, s.serviceName)
    ensures forall k :: 0 <= k < |r| ==> r[k] == EntryOf(s) && s.serviceName in required
  {
    if required == [] then []
    else (if s.serviceName == required[0] then [EntryOf(s)] else []) + Matches(s, required[1..])
  }

  /** The Added list of the bootstrap patch: for every registration in table order,
      its entry once per required name it matches. */
  function BootstrapAdded(table: seq<Registration>, required: seq<string>): (r: seq<PatchEntry>)
    ensures forall k :: 0 <= k < |r| ==> r[k].name in required
  {
    if table == [] then [] else Matches(table[0], required) + BootstrapAdded(table[1..], required)
  }

  /** The patch sent to a newly added service; it never removes anything. */
  function BootstrapPatch(table: seq<Registration>, r: Registration): (p: Patch)
    ensures p.removed == []
    ensures forall k :: 0 <= k < |p.added| ==> p.added[k].name in r.requiredServices
  {
    Patch(BootstrapAdded(table, r.requiredServices), [])
  }

  // ----- Per-consumer notification -----

  /** Every non-empty filtered patch a consumer is due, one per required name
      in order, as if every delivery succeeded. */
  function WantedSends(names: seq<string>, updateURL: string, full: Patch): (r: seq<Send>)
    ensures |r| <= |names|
  {
    if names == [] then []
    else
      var p := ConsumerPatch(full, names[0]);
      (if IsEmpty(p) then [] else [Send(updateURL, p)]) + WantedSends(names[1..], updateURL, full)
  }

  /** What one consumer actually receives from one notification: its filtered
      patches in order of its required names, skipping empty ones, and stopping
      right after the first send that fails. */
  function ConsumerSends(names: seq<string>, updateURL: string, full: Patch, deliver: Send -> bool): (r: seq<Send>)
    ensures |r| <= |names|
    ensures forall k :: 0 <= k < |r| ==> r[k].url == updateURL && !IsEmpty(r[k].patch)
    ensures forall k :: 0 <= k < |r| - 1 ==> deliver(r[k])
  {
    if names == [] then []
    else
      var p := ConsumerPatch(full, names[0]);
      if IsEmpty(p) then ConsumerSends(names[1..], updateURL, full, deliver)
      else if deliver(Send(updateURL, p)) then [Send(updateURL, p)] + ConsumerSends(names[1..], updateURL, full, deliver)
      else [Send(updateURL, p)]
  }

  /** The sends of one notification over the whole table, consumer after consumer. */
  function NotifySends(table: seq<Registration>, full: Patch, deliver: Send -> bool): (r: seq<Send>)
    ensures forall k :: 0 <= k < |r| ==> !IsEmpty(r[k].patch)
  {
    if table == [] then []
    else ConsumerSends(table[0].requiredServices, table[0].serviceUpdateURL, full, deliver)
         + NotifySends(table[1..], full, deliver)
  }

  // ----- Removal -----

  /** The index of the first registration with service URL `url`, if any. */
  function FindURL(table: seq<Registration>, url: string): (r: Option<nat>)
    ensures r.None? ==> forall i :: 0 <= i < |table| ==> table[i].serviceURL != url
    ensures r.Some? ==> r.value < |table| && table[r.value].serviceURL == url
    ensures r.Some? ==> forall j :: 0 <= j < r.value ==> table[j].serviceURL != url
  {
    if table == [] then None
    else if table[0].serviceURL == url then Some(0)
    else match FindURL(table[1..], url)
      case None => None
      case Some(i) => Some(i + 1)
  }

  /** `table` without its entry at index `i`, the others in their original order. */
  function RemoveAt(table: seq<Registration>, i: nat): (r: seq<Registration>)
    requires i < |table|
    ensures |r| == |table| - 1
    ensures forall j :: 0 <= j < i ==> r[j] == table[j]
    ensures forall j :: i <= j < |r| ==> r[j] == table[j + 1]
  {
    table[..i] + table[i + 1..]
  }

  /** How many registrations in `table` carry the service URL `url`. */
  function UrlCount(table: seq<Registration>, url: string): nat {
    if table == [] then 0 else (if table[0].serviceURL == url then 1 else 0) + UrlCount(table[1..], url)
  }
}
