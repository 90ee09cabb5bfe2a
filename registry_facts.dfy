/** What the registry's notification and removal rules guarantee, stated over
    the functions of RegistrySpec and proved by induction on the table or on a
    consumer's required names. */
module RegistryFacts {
  import opened Patches
  import opened RegistrySpec

  // ----- One consumer -----

  /** With no name to serve, or none with a non-empty patch, nothing is wanted. */
  lemma {:induction false} WantedSendsEmpty(names: seq<string>, updateURL: string, full: Patch)
    ensures WantedSends(names, updateURL, full) == []
        <==> forall k :: 0 <= k < |names| ==> IsEmpty(ConsumerPatch(full, names[k]))
  {
    if names != [] {
      WantedSendsEmpty(names[1..], updateURL, full);
      assert forall k :: 1 <= k < |names| ==> names[k] == names[1..][k - 1];
    }
  }

  /** Every wanted send goes to the consumer's update URL and carries the
      non-empty filtered patch of one of its required names. */
  lemma {:induction false} WantedSendsShape(names: seq<string>, updateURL: string, full: Patch, k: nat)
    requires k < |WantedSends(names, updateURL, full)|
    ensures WantedSends(names, updateURL, full)[k].url == updateURL
    ensures !IsEmpty(WantedSends(names, updateURL, full)[k].patch)
    ensures exists j :: 0 <= j < |names| && WantedSends(names, updateURL, full)[k].patch == ConsumerPatch(full, names[j])
  {
    var p := ConsumerPatch(full, names[0]);
    var rest := WantedSends(names[1..], updateURL, full);
    if IsEmpty(p) {
      WantedSendsShape(names[1..], updateURL, full, k);
      var j :| 0 <= j < |names[1..]| && rest[k].patch == ConsumerPatch(full, names[1..][j]);
      assert names[1..][j] == names[j + 1];
    } else if k > 0 {
      WantedSendsShape(names[1..], updateURL, full, k - 1);
      var j :| 0 <= j < |names[1..]| && rest[k - 1].patch == ConsumerPatch(full, names[1..][j]);
      assert names[1..][j] == names[j + 1];
    } else {
      assert WantedSends(names, updateURL, full)[0].patch == ConsumerPatch(full, names[0]);
    }
  }

  /** A consumer receives the wanted sends in order up to and including the first
      that fails: all of them when none fails, otherwise a prefix ending in the
      failed one. */
  lemma {:induction false} ConsumerSendsStopAtFirstFailure(names: seq<string>, updateURL: string, full: Patch, deliver: Send -> bool)
    ensures var r := ConsumerSends(names, updateURL, full, deliver);
            var w := WantedSends(names, updateURL, full);
            |r| <= |w| && r == w[..|r|] && (|r| == |w| || (|r| > 0 && !deliver(r[|r| - 1])))
  {
    if names != [] {
      ConsumerSendsStopAtFirstFailure(names[1..], updateURL, full, deliver);
      var p := ConsumerPatch(full, names[0]);
      var r' := ConsumerSends(names[1..], updateURL, full, deliver);
      var w' := WantedSends(names[1..], updateURL, full);
      if !IsEmpty(p) && deliver(Send(updateURL, p)) {
        assert ([Send(updateURL, p)] + w')[..1 + |r'|] == [Send(updateURL, p)] + w'[..|r'|];
      }
    }
  }

  /** When every wanted send is delivered, the consumer receives all of them. */
  lemma {:induction false} ConsumerSendsReliable(names: seq<string>, updateURL: string, full: Patch, deliver: Send -> bool)
    requires forall s :: s in WantedSends(names, updateURL, full) ==> deliver(s)
    ensures ConsumerSends(names, updateURL, full, deliver) == WantedSends(names, updateURL, full)
  {
    ConsumerSendsStopAtFirstFailure(names, updateURL, full, deliver);
  }

  /** A consumer receives nothing exactly when none of its required names is
      carried by an entry of the full patch. */
  lemma {:induction false} ConsumerSendsNothing(names: seq<string>, updateURL: string, full: Patch, deliver: Send -> bool)
    ensures ConsumerSends(names, updateURL, full, deliver) == []
        <==> forall k :: 0 <= k < |names| ==> IsEmpty(ConsumerPatch(full, names[k]))
  {
    ConsumerSendsStopAtFirstFailure(names, updateURL, full, deliver);
    WantedSendsEmpty(names, updateURL, full);
  }

  /** Everything a consumer receives goes to its own update URL and is the
      non-empty filtered patch of one of its required names. */
  lemma ConsumerSendsShape(names: seq<string>, updateURL: string, full: Patch, deliver: Send -> bool, k: nat)
    requires k < |ConsumerSends(names, updateURL, full, deliver)|
    ensures ConsumerSends(names, updateURL, full, deliver)[k].url == updateURL
    ensures !IsEmpty(ConsumerSends(names, updateURL, full, deliver)[k].patch)
    ensures exists j :: 0 <= j < |names| && ConsumerSends(names, updateURL, full, deliver)[k].patch == ConsumerPatch(full, names[j])
  {
    ConsumerSendsStopAtFirstFailure(names, updateURL, full, deliver);
    WantedSendsShape(names, updateURL, full, k);
  }

  // ----- All consumers -----

  /** Notifying two parts of a table is notifying each part in turn. */
  lemma {:induction false} NotifySendsAppend(a: seq<Registration>, b: seq<Registration>, full: Patch, deliver: Send -> bool)
    ensures NotifySends(a + b, full, deliver) == NotifySends(a, full, deliver) + NotifySends(b, full, deliver)
  {
    if a == [] {
      assert a + b == b;
    } else {
      assert (a + b)[0] == a[0] && (a + b)[1..] == a[1..] + b;
      NotifySendsAppend(a[1..], b, full, deliver);
    }
  }

  /** Consumers are independent: consumer `i` receives exactly what it would
      receive alone, whatever happened to the deliveries of the others. */
  lemma NotifyIsolation(table: seq<Registration>, full: Patch, deliver: Send -> bool, i: nat)
    requires i < |table|
    ensures NotifySends(table, full, deliver)
         == NotifySends(table[..i], full, deliver)
          + ConsumerSends(table[i].requiredServices, table[i].serviceUpdateURL, full, deliver)
          + NotifySends(table[i + 1..], full, deliver)
  {
    assert table == table[..i] + table[i..];
    NotifySendsAppend(table[..i], table[i..], full, deliver);
    assert table[i..][1..] == table[i + 1..];
  }

  /** An update URL whose consumers all require none of the names in the full
      patch receives nothing from the notification. */
  lemma {:induction false} NotifySkipsUninterested(table: seq<Registration>, full: Patch, deliver: Send -> bool, u: string)
    requires forall i :: 0 <= i < |table| && table[i].serviceUpdateURL == u ==>
               forall k :: 0 <= k < |table[i].requiredServices| ==>
                 IsEmpty(ConsumerPatch(full, table[i].requiredServices[k]))
    ensures forall s :: s in NotifySends(table, full, deliver) ==> s.url != u
  {
    if table != [] {
      var c := table[0];
      var own := ConsumerSends(c.requiredServices, c.serviceUpdateURL, full, deliver);
      assert forall i :: 1 <= i < |table| ==> table[1..][i - 1] == table[i];
      NotifySkipsUninterested(table[1..], full, deliver, u);
      if c.serviceUpdateURL == u {
        ConsumerSendsNothing(c.requiredServices, c.serviceUpdateURL, full, deliver);
      } else {
        forall k | 0 <= k < |own| ensures own[k].url != u {
          ConsumerSendsShape(c.requiredServices, c.serviceUpdateURL, full, deliver, k);
        }
      }
    }
  }

  // ----- Bootstrap patch -----

  /** Unfolding a registration's contribution at position `j` of the required names. */
  lemma MatchesStep(s: Registration, required: seq<string>, j: nat)
    requires j < |required|
    ensures Matches(s, required[j..])
         == (if s.serviceName == required[j] then [EntryOf(s)] else []) + Matches(s, required[j + 1..])
  {
  }

  /** Unfolding the bootstrap list at position `i` of the table. */
  lemma BootstrapAddedStep(table: seq<Registration>, required: seq<string>, i: nat)
    requires i < |table|
    ensures BootstrapAdded(table[i..], required)
         == Matches(table[i], required) + BootstrapAdded(table[i + 1..], required)
  {
  }

  /** The entries a registration contributes are all its own. */
  lemma {:induction false} MatchesAreOwn(s: Registration, required: seq<string>, e: PatchEntry)
    ensures e in Matches(s, required) <==> e == EntryOf(s) && s.serviceName in required
  {
    if required != [] {
      MatchesAreOwn(s, required[1..], e);
      assert s.serviceName in required <==> s.serviceName == required[0] || s.serviceName in required[1..];
    }
  }

  /** The bootstrap patch lists a service exactly when it is registered and its
      name is among the required ones. */
  lemma {:induction false} BootstrapMembers(table: seq<Registration>, required: seq<string>, e: PatchEntry)
    ensures e in BootstrapAdded(table, required)
        <==> exists i :: 0 <= i < |table| && e == EntryOf(table[i]) && table[i].serviceName in required
  {
    if table != [] {
      BootstrapMembers(table[1..], required, e);
      MatchesAreOwn(table[0], required, e);
      if exists i :: 1 <= i < |table| && e == EntryOf(table[i]) && table[i].serviceName in required {
        var i :| 1 <= i < |table| && e == EntryOf(table[i]) && table[i].serviceName in required;
        assert table[1..][i - 1] == table[i];
      }
      if exists i :: 0 <= i < |table[1..]| && e == EntryOf(table[1..][i]) && table[1..][i].serviceName in required {
        var i :| 0 <= i < |table[1..]| && e == EntryOf(table[1..][i]) && table[1..][i].serviceName in required;
        assert table[1..][i] == table[i + 1];
      }
    }
  }

  /** Filtering one registration's contribution by a name keeps all or nothing. */
  lemma {:induction false} MatchesByName(s: Registration, required: seq<string>, y: string)
    ensures FilterByName(Matches(s, required), y) == if s.serviceName == y then Matches(s, required) else []
  {
    if required != [] {
      var head := if s.serviceName == required[0] then [EntryOf(s)] else [];
      MatchesByName(s, required[1..], y);
      FilterByNameAppend(head, Matches(s, required[1..]), y);
      if head != [] {
        assert head[1..] == [];
      }
    }
  }

  /** The bootstrap patch names `y` once per registration named `y` and per
      occurrence of `y` among the required names. */
  lemma {:induction false} BootstrapCount(table: seq<Registration>, required: seq<string>, y: string)
    ensures |FilterByName(BootstrapAdded(table, required), y)| == CountName(table, y) * Occurrences(required, y)
  {
    if table != [] {
      var o := Occurrences(required, y);
      var a := CountName(table[1..], y);
      var own := FilterByName(Matches(table[0], required), y);
      var rest := FilterByName(BootstrapAdded(table[1..], required), y);
      BootstrapCount(table[1..], required, y);
      FilterByNameAppend(Matches(table[0], required), BootstrapAdded(table[1..], required), y);
      MatchesByName(table[0], required, y);
      assert |FilterByName(BootstrapAdded(table, required), y)| == |own| + |rest|;
      assert |rest| == a * o;
      if table[0].serviceName == y {
        assert |own| == o;
        AddOneFactor(a, o);
      } else {
        assert |own| == 0;
      }
    }
  }

  /** Distributing one more factor; stated apart so the solver meets the product
      outside the sequence reasoning of BootstrapCount. */
  lemma AddOneFactor(a: nat, o: nat)
    ensures (1 + a) * o == o + a * o
  {
  }

  // ----- Adding and removing by URL -----

  /** Counting URLs distributes over concatenation. */
  lemma {:induction false} UrlCountAppend(a: seq<Registration>, b: seq<Registration>, url: string)
    ensures UrlCount(a + b, url) == UrlCount(a, url) + UrlCount(b, url)
  {
    if a == [] {
      assert a + b == b;
    } else {
      assert (a + b)[0] == a[0] && (a + b)[1..] == a[1..] + b;
      UrlCountAppend(a[1..], b, url);
    }
  }

  /** The lookup by URL fails exactly when no registration carries the URL. */
  lemma {:induction false} FindURLAbsent(table: seq<Registration>, url: string)
    ensures FindURL(table, url).None? <==> UrlCount(table, url) == 0
  {
    if table != [] {
      FindURLAbsent(table[1..], url);
    }
  }

  /** Appending never merges with an earlier registration of the same URL:
      the table holds one more copy of the URL after each add. */
  lemma AddKeepsEveryCopy(table: seq<Registration>, r: Registration)
    ensures UrlCount(table + [r], r.serviceURL) == UrlCount(table, r.serviceURL) + 1
  {
    UrlCountAppend(table, [r], r.serviceURL);
  }

  /** Taking out the first registration with a URL leaves one copy fewer. */
  lemma RemoveFirstCount(table: seq<Registration>, url: string)
    requires FindURL(table, url).Some?
    ensures UrlCount(RemoveAt(table, FindURL(table, url).value), url) == UrlCount(table, url) - 1
  {
    var i := FindURL(table, url).value;
    assert table == table[..i] + ([table[i]] + table[i + 1..]);
    UrlCountAppend(table[..i], [table[i]] + table[i + 1..], url);
    UrlCountAppend([table[i]], table[i + 1..], url);
    UrlCountAppend(table[..i], table[i + 1..], url);
  }

  /** A second removal of the same URL finds it again exactly when the URL was
      registered more than once; a once-registered URL is gone after one removal. */
  lemma RemoveAgain(table: seq<Registration>, url: string)
    requires FindURL(table, url).Some?
    ensures FindURL(RemoveAt(table, FindURL(table, url).value), url).Some? <==> UrlCount(table, url) >= 2
  {
    RemoveFirstCount(table, url);
    FindURLAbsent(RemoveAt(table, FindURL(table, url).value), url);
  }
}
