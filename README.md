# Service registry — Dafny model

This project models the in-memory service registry of a small distributed
system (`registry/server.go`). Services register by POSTing a registration:
a service name, a service URL, the names of the services they depend on, and
an update URL. The registry keeps these registrations in a table in the order
they were added. It pushes each new service a *bootstrap patch*: the
registered services it depends on. It then announces the new service to every
registered consumer. A deregistration (DELETE with the service URL as body)
announces the removal first, then deletes the first registration with that
URL. Every announcement is filtered per consumer: for each name the consumer
requires, it gets only the added and removed entries that carry that name, and
only when there is at least one.

Modules:

- `Patches` (`patch.dfy`): patch entries and patches, filtering by name, and
  the collecting loop of the notification.
- `RegistrySpec` (`registry_spec.dfy`): registrations, sends, errors, and the
  functions that say what each operation sends and removes for a given table.
- `RegistryFacts` (`registry_facts.dfy`): the lemmas about those functions.
- `RegistryServer` (`registry.dfy`): the `Registry` class. Its
  `registrations` sequence is the table. Its ghost `outbox` sequence records
  every patch posted, in posting order. It is an observation of the network,
  not state the registry keeps. Each method is proved against the functions of
  `RegistrySpec`.
- `Service` (`service.dfy`): the mapping from request method to operation and
  status code.
- `Scenarios` (`scenarios.dfy`): two concrete runs with every delivery
  succeeding. Each returns the final table and, as a ghost value, posts it
  made: `RegisterThenDeregister` every post of the run, `SelectiveFanOut` only
  the posts of the final removal.

The network is a parameter. Every post is appended to the outbox. A delivery
oracle `deliver: Send -> bool` says whether the post of a given patch to a
given URL succeeded. JSON decoding and body reading reach `ServeHTTP` as an
`Option`: `None` means the step failed.

Behaviour the code has that a reader might not expect, modelled as written:

- Nothing in `add` (`registry/server.go:22-25`) checks whether the service URL
  is already registered. Adding the same URL twice stores it twice
  (`AddKeepsEveryCopy`). `remove` (`registry/server.go:104-118`) takes out only
  the first match, so a URL registered twice survives one removal
  (`RemoveAgain`). "A second removal fails" holds only for a URL registered
  once.
- `add` appends the new registration (`registry/server.go:24`) before it builds
  the bootstrap patch and the announcement. The new registration is therefore
  in the table for both steps: when it lists its own service name among its
  required names, it appears in its own bootstrap patch and is notified of
  itself.
- The required names are a list (`registry/server.go:43`, `:76`), not a set.
  A name listed twice is therefore served twice (`BootstrapCount`).
- `remove` looks entries up through the process-wide registry value but
  updates its receiver (`registry/server.go:105-116`). The only caller is that
  same value, so the model uses a single `Registry` object for both.

## Model

| member | source | states |
|---|---|---|
| `Patches.FilterByName` | registry/server.go:46-57 | the entries kept for one required name are never more than the entries of the full list |
| `Patches.FilterByNameMembers` | registry/server.go:46-57 | an entry is in a consumer's list for `n` exactly when it is in the full list and its name is `n` |
| `Patches.FilterByNameAppend` | registry/server.go:46-57 | filtering keeps the collection order: filtering a concatenation gives the filtered parts, concatenated in the same order |
| `Patches.FilterByNameCount` | registry/server.go:46-57 | every entry named `n` is kept as many times as it occurs in the full list, and no other entry is kept |
| `Patches.ConsumerPatchEmpty` | registry/server.go:44-58 | the patch for a required name holds only full-patch entries with that name; it is empty (nothing to send) exactly when no added or removed entry carries the name |
| `Patches.ConsumerPatch` | registry/server.go:44-57 | defines the patch one consumer gets for one required name: the added and the removed entries carrying that name. Neither list is longer than its counterpart in the full patch |
| `Patches.CollectByName` | registry/server.go:45-57 | the collecting loop yields exactly the filtered list, and its send flag is raised exactly when that list is non-empty |
| `RegistrySpec.AnnounceAdded` | registry/server.go:27-34 | defines the announcement of a new registration: its one entry as added, nothing removed. Filtered for a required name, it is non-empty exactly when that name is the new service's name |
| `RegistrySpec.AnnounceRemoved` | registry/server.go:107-114 | defines the announcement of a removal: the removed registration's one entry as removed, nothing added. Filtered for a required name, it is non-empty exactly when that name is the removed service's name |
| `RegistrySpec.Matches` | registry/server.go:76-83 | one registration contributes one entry to the bootstrap patch for each required name equal to its service name |
| `RegistrySpec.BootstrapAdded` | registry/server.go:74-84 | defines the bootstrap Added list: each registration's matches, in table order. Every entry in it carries one of the required names |
| `RegistrySpec.BootstrapPatch` | registry/server.go:74-85 | defines the patch sent to a new service: the bootstrap Added list, and nothing removed. Every added entry names one of the service's required names |
| `RegistrySpec.WantedSends` | registry/server.go:43-64 | a consumer is due at most one patch per required name |
| `RegistrySpec.ConsumerSends` | registry/server.go:43-64 | a consumer receives at most one patch per required name. Every post goes to its update URL with a non-empty patch, and every post to it except the last was delivered |
| `RegistrySpec.NotifySends` | registry/server.go:41-67 | defines one notification's posts: each consumer's sends, consumer after consumer in table order. No post carries an empty patch |
| `RegistrySpec.FindURL` | registry/server.go:105-106 | the lookup finds the first registration whose service URL matches, or reports that none does |
| `RegistrySpec.RemoveAt` | registry/server.go:116 | the splice drops exactly one entry and keeps every other entry in its original order |
| `RegistryFacts.WantedSendsEmpty` | registry/server.go:43-58 | a consumer is due nothing exactly when every one of its required names yields an empty patch |
| `RegistryFacts.WantedSendsShape` | registry/server.go:43-59 | every patch due to a consumer goes to its update URL, is non-empty, and is the filtered patch of one of its required names |
| `RegistryFacts.ConsumerSendsStopAtFirstFailure` | registry/server.go:58-63 | a consumer receives its due patches in order: all of them, or a prefix whose last post failed |
| `RegistryFacts.ConsumerSendsReliable` | registry/server.go:43-65 | when every due post is delivered, the consumer receives every due patch |
| `RegistryFacts.ConsumerSendsNothing` | registry/server.go:43-58 | a consumer receives nothing exactly when none of its required names is carried by an entry of the full patch |
| `RegistryFacts.ConsumerSendsShape` | registry/server.go:58-59 | everything a consumer receives goes to its own update URL and is the non-empty filtered patch of one of its required names |
| `RegistryFacts.NotifySendsAppend` | registry/server.go:41-67 | notifying a table is notifying its two parts one after the other |
| `RegistryFacts.NotifyIsolation` | registry/server.go:41-67 | consumer `i` receives exactly what it would receive on its own, whatever the deliveries to other consumers did |
| `RegistryFacts.NotifySkipsUninterested` | registry/server.go:41-67 | an update URL whose consumers require none of the changed names receives nothing |
| `RegistryFacts.MatchesAreOwn` | registry/server.go:76-82 | a registration contributes only its own entry, and only when its name is required |
| `RegistryFacts.BootstrapMembers` | registry/server.go:74-84 | the bootstrap patch lists a service exactly when it is in the table and its name is required |
| `RegistryFacts.MatchesByName` | registry/server.go:76-82 | filtering one registration's contribution by a name keeps all of it or none of it |
| `RegistryFacts.BootstrapCount` | registry/server.go:74-84 | the bootstrap patch names `y` (registrations named `y`) × (occurrences of `y` among the required names) times |
| `RegistryFacts.FindURLAbsent` | registry/server.go:104-121 | removal reports "not found" exactly when no registration carries the URL |
| `RegistryFacts.AddKeepsEveryCopy` | registry/server.go:22-25 | adding never merges with an earlier registration of the same URL: each add adds one more copy |
| `RegistryFacts.RemoveFirstCount` | registry/server.go:104-118 | a successful removal takes out exactly one copy of the URL |
| `RegistryFacts.RemoveAgain` | registry/server.go:104-121 | a second removal of the same URL succeeds exactly when the URL had been registered at least twice |
| `RegistryServer.CollectMatches` | registry/server.go:76-83 | the inner bootstrap loop collects a registration's entry once per required name equal to its service name |
| `RegistryServer.CollectRequired` | registry/server.go:74-84 | the outer bootstrap loop yields exactly the bootstrap Added list, registration by registration in table order |
| `RegistryServer.Registry.constructor` | registry/server.go:124-127 | the registry starts with an empty table, and nothing has been posted |
| `RegistryServer.Registry.SendPatch` | registry/server.go:92-102 | a post is recorded once in the outbox, and its result is the delivery outcome |
| `RegistryServer.Registry.Add` | registry/server.go:22-36 | the registration is appended after every earlier entry, with no dedup. The bootstrap patch of the new table is posted to its update URL, then the announcement of the new service goes out. The result is exactly the bootstrap post's outcome |
| `RegistryServer.Registry.Notify` | registry/server.go:38-68 | the table is only read; the outbox grows by each consumer's filtered sends, consumer after consumer |
| `RegistryServer.Registry.NotifyConsumer` | registry/server.go:42-66 | one consumer's posts are its filtered patches for each required name. Empty ones are skipped, and the posts stop after the first failure |
| `RegistryServer.Registry.SendRequiredService` | registry/server.go:70-90 | the table is only read. The bootstrap patch (Removed empty) is posted even when Added is empty. The result is the post's outcome |
| `RegistryServer.Registry.Remove` | registry/server.go:104-122 | an absent URL gives NotFound naming it and changes nothing. Otherwise the removal is announced while the entry is still in the table, and only the first entry with that URL is then spliced out |
| `Service.ServeHTTP` | registry/server.go:132-170 | POST with an undecodable body gives 400; a stored registration gives 400 exactly when the bootstrap post fails. DELETE with an unreadable body or an unknown URL gives 500. A stored POST posts the bootstrap patch then the announcement; a found DELETE posts the removal announcement and splices out the entry. Any other method, and any failure before the table is touched, changes nothing |
| `Scenarios.RegisterThenDeregister` | registry/server.go:22-122 | registering svcA, then svcB requiring svcA, then deregistering svcA posts an empty bootstrap to svcA. svcB gets svcA as added, then as removed, and nothing else is posted |
| `Scenarios.SelectiveFanOut` | registry/server.go:22-122 | A (requires C), B (requires nothing) and C are added, then C is removed. Of the removal's posts only A's update URL hears of it, and A and B remain in order |
| `Scenarios.RemoveCFromAbc` | registry/server.go:41-67 | in the table [A, B, C], C's URL is found at index 2, and announcing C's removal posts only to A |

## Left out

- HTTP and JSON: posting a patch is an outbox entry plus a delivery oracle, and the request body arrives already decoded or read. A JSON encoding failure in `sendPatch` counts as a failed delivery. The error a failed post returns is modelled as `DeliveryFailed` naming the update URL, not the transport's own error value.
- The oracle gives one fixed outcome per (URL, patch) pair. Two identical posts in one run, for example a bootstrap and an announcement with the same content to the same URL, therefore succeed or fail together.
- Locking and goroutines: the read/write lock and the per-consumer goroutines are left out. Consumers are served one after the other in table order. The code itself fixes no order between consumers, and concurrent requests can interleave their posts. None of this interleaving is modelled. `remove` finds its index without holding the lock (`registry/server.go:105-106`) and splices at that index under the write lock (`:116`). A concurrent remove of an earlier entry in between can shift the index, so a different registration is deleted, or, with the index past the end, the splice panics. A concurrent add only appends and does not move the entry. The model, being sequential, does not capture this.
- Logging output is left out.
- The status 200 of a successful request is what the HTTP server sends when the handler writes no header. The model returns it explicitly.
- The `Registration`, `patch` and `patchEntry` types are defined outside `registry/server.go`. Their fields are those the code uses. In the code, the bootstrap patch's lists start as nil slices rather than empty ones; both stand for "no entries" here.
- The port and URL constants (`registry/server.go:13-14`) are not used by the registry logic.
- `log/server.go`, `log/client.go` and `cmd/logservice/main.go` are not part of this model. They are a file logger, an HTTP log forwarder and process wiring.
