/** The embedded views of the shell, as the sequence of `.webview` children of
    the parent element, in document order, and the lookups and updates the
    controller performs on them. */
module Views {
  import opened Wrappers

  /** One `<webview>` element: the server URL it is bound to (`data-server`),
      its `active` and `ready` classes, and its `src` attribute. */
  datatype View = View(server: string, active: bool, ready: bool, src: string)

  /** The server record handed to `add` and `remove`; `lastPath` is `None`
      when the record has no last path. */
  datatype Server = Server(url: string, lastPath: Option<string>)

  /** The three selectors the controller queries the parent element with. */
  datatype Selector =
    | ByServer(url: string)        // .webview[data-server="url"]
    | AnyActive                    // .webview.active
    | ActiveByServer(url: string)  // .webview.active[data-server="url"]

  predicate Matches(v: View, sel: Selector)
  {
    match sel
    case ByServer(url) => v.server == url
    case AnyActive => v.active
    case ActiveByServer(url) => v.active && v.server == url
  }

  /** `querySelector`: the position of the first view, in document order,
      that the selector matches, or `None` when no view matches. */
  function QuerySelector(views: seq<View>, sel: Selector): (r: Option<nat>)
    ensures r.Some? ==> r.value < |views| && Matches(views[r.value], sel)
    ensures r.Some? ==> forall j :: 0 <= j < r.value ==> !Matches(views[j], sel)
    ensures r.None? ==> forall j :: 0 <= j < |views| ==> !Matches(views[j], sel)
  {
    if views == [] then None
    else if Matches(views[0], sel) then Some(0)
    else match QuerySelector(views[1..], sel)
      case None => None
      case Some(i) => Some(i + 1)
  }

  /** `get(serverUrl)`: the first view bound to `url`. */
  function Get(views: seq<View>, url: string): (r: Option<nat>)
    ensures r.Some? ==> r.value < |views| && views[r.value].server == url
    ensures r.None? <==> forall j :: 0 <= j < |views| ==> views[j].server != url
  {
    QuerySelector(views, ByServer(url))
  }

  /** `getActive()`: the first active view. */
  function GetActive(views: seq<View>): (r: Option<nat>)
    ensures r.Some? ==> r.value < |views| && views[r.value].active
    ensures r.None? <==> forall j :: 0 <= j < |views| ==> !views[j].active
  {
    QuerySelector(views, AnyActive)
  }

  /** `isActive(hostUrl)`: whether some active view is bound to `url`. */
  function IsActive(views: seq<View>, url: string): (r: bool)
    ensures r <==> exists j :: 0 <= j < |views| && views[j].active && views[j].server == url
  {
    QuerySelector(views, ActiveByServer(url)).Some?
  }

  // ---------------------------------------------------------------------
  // The registry invariants

  /** No two views are bound to the same server URL. */
  ghost predicate UniqueServers(views: seq<View>)
  {
    forall i, j :: 0 <= i < j < |views| ==> views[i].server != views[j].server
  }

  /** At most one view carries the `active` class. */
  ghost predicate AtMostOneActive(views: seq<View>)
  {
    forall i, j :: 0 <= i < j < |views| ==> !(views[i].active && views[j].active)
  }

  ghost predicate Consistent(views: seq<View>)
  {
    UniqueServers(views) && AtMostOneActive(views)
  }

  /** Two view lists that differ at most in their `active` classes. */
  ghost predicate SameButActive(a: seq<View>, b: seq<View>)
  {
    |a| == |b| &&
    forall i :: 0 <= i < |a| ==>
      a[i].server == b[i].server && a[i].ready == b[i].ready && a[i].src == b[i].src
  }

  /** The number of views that carry the `active` class. */
  function ActiveCount(views: seq<View>): nat
  {
    if views == [] then 0
    else (if views[0].active then 1 else 0) + ActiveCount(views[1..])
  }

  // ---------------------------------------------------------------------
  // The state after each operation of the controller

  /** The element `add` creates: bound to `server.url`, neither active nor
      ready, loading `server.lastPath` when that is a non-empty string and
      `server.url` otherwise (`server.lastPath || server.url`). */
  function NewView(server: Server): View
  {
    var src := if server.lastPath.Some? && server.lastPath.value != "" then server.lastPath.value
               else server.url;
    View(server.url, false, false, src)
  }

  /** The views after `add(server)`. */
  function Added(views: seq<View>, server: Server): seq<View>
  {
    if Get(views, server.url).Some? then views else views + [NewView(server)]
  }

  /** The views after `remove({url})`. */
  function Removed(views: seq<View>, url: string): seq<View>
  {
    match Get(views, url)
    case None => views
    case Some(i) => views[..i] + views[i + 1..]
  }

  /** The views after `deactiveAll()`. */
  function Deactivated(views: seq<View>): seq<View>
  {
    seq(|views|, i requires 0 <= i < |views| => views[i].(active := false))
  }

  /** The views after `setActive(url)`. */
  function Activated(views: seq<View>, url: string): seq<View>
  {
    if IsActive(views, url) then views
    else
      var d := Deactivated(views);
      match Get(d, url)
      case None => d
      case Some(i) => d[i := d[i].(active := true)]
  }

  /** The views after the `dom-ready` handler of the view bound to `url`. */
  function Readied(views: seq<View>, url: string): seq<View>
  {
    match Get(views, url)
    case None => views
    case Some(i) => views[i := views[i].(ready := true)]
  }

  /** A reference definition of removal: every view not bound to `url`, in order. */
  function Without(views: seq<View>, url: string): seq<View>
  {
    if views == [] then []
    else (if views[0].server == url then [] else [views[0]]) + Without(views[1..], url)
  }

  // ---------------------------------------------------------------------
  // Lookups under the invariants

  /** With distinct server URLs, `get` finds a view exactly at its own position. */
  lemma GetUnique(views: seq<View>, url: string, i: nat)
    requires UniqueServers(views) && i < |views|
    ensures Get(views, url) == Some(i) <==> views[i].server == url
  {
    if views[i].server == url {
      var r := Get(views, url);
      assert r.Some?;
      assert r.value <= i;
      assert r.value >= i;
    }
  }

  /** With at most one active view, `getActive` finds exactly the active view. */
  lemma GetActiveUnique(views: seq<View>, i: nat)
    requires AtMostOneActive(views) && i < |views|
    ensures GetActive(views) == Some(i) <==> views[i].active
  {
    if views[i].active {
      var r := GetActive(views);
      assert r.Some?;
      assert r.value <= i;
      assert r.value >= i;
    }
  }

  /** No view is active exactly when the active count is zero: the loop of
      `deactiveAll` stops when its measure does. */
  lemma {:induction false} ActiveCountZero(views: seq<View>)
    ensures ActiveCount(views) == 0 <==> GetActive(views).None?
  {
    if views != [] {
      ActiveCountZero(views[1..]);
      if GetActive(views[1..]).None? && !views[0].active {
        forall j | 0 <= j < |views| ensures !views[j].active {
          if j > 0 { assert views[j] == views[1..][j - 1]; }
        }
      }
      if GetActive(views).None? {
        assert !views[0].active;
        forall j | 0 <= j < |views[1..]| ensures !views[1..][j].active {
          assert views[1..][j] == views[j + 1];
        }
      }
    }
  }

  /** Clearing the `active` class of an active view lowers the count by one:
      the loop of `deactiveAll` terminates. */
  lemma {:induction false} ClearActiveCount(views: seq<View>, i: nat)
    requires i < |views| && views[i].active
    ensures ActiveCount(views[i := views[i].(active := false)]) == ActiveCount(views) - 1
  {
    var cleared := views[i := views[i].(active := false)];
    if i == 0 {
      assert cleared[1..] == views[1..];
    } else {
      ClearActiveCount(views[1..], i - 1);
      assert cleared[1..] == views[1..][i - 1 := views[i].(active := false)];
    }
  }

  // ---------------------------------------------------------------------
  // add

  /** `add` changes nothing when a view for the URL exists; otherwise it
      appends exactly the new element at the end. */
  lemma AddedShape(views: seq<View>, server: Server)
    ensures (exists j :: 0 <= j < |views| && views[j].server == server.url) ==>
              Added(views, server) == views
    ensures (forall j :: 0 <= j < |views| ==> views[j].server != server.url) ==>
              Added(views, server) == views + [View(server.url, false, false,
                if server.lastPath.Some? && server.lastPath.value != "" then server.lastPath.value
                else server.url)]
  {
  }

  /** Adding the same server twice is adding it once. */
  lemma AddedIdempotent(views: seq<View>, server: Server)
    ensures Added(Added(views, server), server) == Added(views, server)
  {
    if Get(views, server.url).None? {
      var a := views + [NewView(server)];
      assert a[|views|].server == server.url;
    }
  }

  /** `add` keeps both registry invariants. */
  lemma AddedConsistent(views: seq<View>, server: Server)
    requires Consistent(views)
    ensures Consistent(Added(views, server))
  {
  }

  /** Adding a server that has no view and then removing its URL gives back
      the original views. */
  lemma AddedThenRemoved(views: seq<View>, server: Server)
    requires forall j :: 0 <= j < |views| ==> views[j].server != server.url
    ensures Removed(Added(views, server), server.url) == views
  {
    var a := Added(views, server);
    assert a == views + [NewView(server)];
    assert a[|views|].server == server.url;
    assert forall j :: 0 <= j < |views| ==> a[j] == views[j];
    assert Get(a, server.url) == Some(|views|);
    assert a[..|views|] == views;
  }

  // ---------------------------------------------------------------------
  // remove

  /** Without a view for `url`, the reference removal changes nothing. */
  lemma {:induction false} WithoutAbsent(views: seq<View>, url: string)
    requires forall j :: 0 <= j < |views| ==> views[j].server != url
    ensures Without(views, url) == views
  {
    if views != [] {
      WithoutAbsent(views[1..], url);
      assert [views[0]] + views[1..] == views;
    }
  }

  /** With distinct server URLs, `remove(url)` keeps exactly the views not
      bound to `url`, in their order and with their fields. */
  lemma {:induction false} RemovedIsWithout(views: seq<View>, url: string)
    requires UniqueServers(views)
    ensures Removed(views, url) == Without(views, url)
  {
    if views != [] {
      var rest := views[1..];
      assert UniqueServers(rest) by {
        forall i, j | 0 <= i < j < |rest| ensures rest[i].server != rest[j].server {
          assert rest[i] == views[i + 1] && rest[j] == views[j + 1];
        }
      }
      if views[0].server == url {
        forall j | 0 <= j < |rest| ensures rest[j].server != url {
          assert rest[j] == views[j + 1];
        }
        WithoutAbsent(rest, url);
        assert Get(views, url) == Some(0);
      } else {
        RemovedIsWithout(rest, url);
        match Get(rest, url)
        case None =>
          assert Get(views, url).None?;
          assert [views[0]] + rest == views;
        case Some(i) =>
          assert Get(views, url) == Some(i + 1);
          assert views[..i + 1] + views[i + 2..] == [views[0]] + (rest[..i] + rest[i + 1..]);
      }
    }
  }

  /** `remove` keeps both registry invariants, and no view for `url` remains. */
  lemma RemovedConsistent(views: seq<View>, url: string)
    requires Consistent(views)
    ensures Consistent(Removed(views, url))
    ensures forall j :: 0 <= j < |Removed(views, url)| ==> Removed(views, url)[j].server != url
  {
    var r := Removed(views, url);
    if Get(views, url).Some? {
      var i := Get(views, url).value;
      assert forall j :: 0 <= j < |r| ==> r[j] == (if j < i then views[j] else views[j + 1]);
      GetUnique(views, url, i);
      forall j | 0 <= j < |r| ensures r[j].server != url {
        if j < i { GetUnique(views, url, j); } else { GetUnique(views, url, j + 1); }
      }
    }
  }

  // ---------------------------------------------------------------------
  // deactiveAll

  /** After `deactiveAll` no view is active, and only the `active` classes changed. */
  lemma DeactivatedSpec(views: seq<View>)
    ensures GetActive(Deactivated(views)).None?
    ensures SameButActive(Deactivated(views), views)
    ensures Consistent(views) ==> Consistent(Deactivated(views))
  {
  }

  /** Clearing the `active` class of one view does not change what
      `deactiveAll` would leave. */
  lemma DeactivatedClear(views: seq<View>, i: nat)
    requires i < |views|
    ensures Deactivated(views[i := views[i].(active := false)]) == Deactivated(views)
  {
  }

  /** A list with no active view is left as it is by `deactiveAll`. */
  lemma DeactivatedNoneActive(views: seq<View>)
    requires GetActive(views).None?
    ensures Deactivated(views) == views
  {
    assert forall j :: 0 <= j < |views| ==> views[j].(active := false) == views[j];
  }

  // ---------------------------------------------------------------------
  // setActive

  /** With the invariants holding before, `setActive(url)` leaves exactly the
      view bound to `url` active, or no view active when none is bound to it,
      and changes nothing but `active` classes. */
  lemma ActivatedExact(views: seq<View>, url: string)
    requires Consistent(views)
    ensures SameButActive(Activated(views, url), views)
    ensures forall j :: 0 <= j < |views| ==>
              (Activated(views, url)[j].active <==> views[j].server == url)
  {
    var r := Activated(views, url);
    if IsActive(views, url) {
      var k :| 0 <= k < |views| && views[k].active && views[k].server == url;
      forall j | 0 <= j < |views| ensures r[j].active <==> views[j].server == url {
        GetUnique(views, url, j);
        GetUnique(views, url, k);
      }
    } else {
      var d := Deactivated(views);
      assert UniqueServers(d);
      match Get(d, url)
      case None =>
      case Some(i) =>
        forall j | 0 <= j < |views| ensures r[j].active <==> views[j].server == url {
          GetUnique(d, url, j);
        }
    }
  }

  /** `setActive` keeps both registry invariants. */
  lemma ActivatedConsistent(views: seq<View>, url: string)
    requires Consistent(views)
    ensures Consistent(Activated(views, url))
  {
    var r := Activated(views, url);
    ActivatedExact(views, url);
    forall i, j | 0 <= i < j < |r| ensures !(r[i].active && r[j].active) {
      assert views[i].server != views[j].server;
    }
  }

  /** Activating the same URL twice is activating it once. */
  lemma ActivatedIdempotent(views: seq<View>, url: string)
    requires Consistent(views)
    ensures Activated(Activated(views, url), url) == Activated(views, url)
  {
    var r := Activated(views, url);
    ActivatedExact(views, url);
    if !IsActive(r, url) {
      forall j | 0 <= j < |r| ensures r[j].server != url {
        assert r[j].active <==> r[j].server == url;
      }
    }
  }

  // ---------------------------------------------------------------------
  // dom-ready

  /** The `dom-ready` handler sets `ready` on the view bound to `url` and
      changes nothing else. */
  lemma ReadiedSpec(views: seq<View>, url: string)
    requires UniqueServers(views)
    ensures |Readied(views, url)| == |views|
    ensures forall j :: 0 <= j < |views| ==>
              Readied(views, url)[j] ==
                (if views[j].server == url then views[j].(ready := true) else views[j])
    ensures Consistent(views) ==> Consistent(Readied(views, url))
  {
    forall j | 0 <= j < |views| {
      GetUnique(views, url, j);
    }
  }

}
