/** The controller itself: the parent element's list of views, updated in
    place by `add`, `remove`, `deactiveAll`, `setActive` and the `dom-ready`
    listener. */
module Registry {
  import opened Wrappers
  import opened Views
  import opened Handlers

  class WebViews {
    /** The `.webview` children of the parent element, in document order. */
    var views: seq<View>

    /** The registry invariant: one view per server URL, at most one active. */
    ghost predicate Valid()
      reads this
    {
      Consistent(views)
    }

    /** `mount`: the parent element is the document body, which holds no view yet. */
    constructor Mount()
      ensures Valid() && views == []
    {
      views := [];
    }

    /** `deactiveAll`: strip the `active` class from the first active view
        until no active view is left. */
    method DeactiveAll()
      modifies this
      ensures views == Deactivated(old(views))
      ensures forall j :: 0 <= j < |views| ==> !views[j].active
      ensures SameButActive(views, old(views))
    {
      var item := GetActive(views);
      while item.Some?
        invariant item == GetActive(views)
        invariant Deactivated(views) == Deactivated(old(views))
        decreases ActiveCount(views)
      {
        var i := item.value;
        ClearActiveCount(views, i);
        DeactivatedClear(views, i);
        views := views[i := views[i].(active := false)];
        item := GetActive(views);
      }
      DeactivatedNoneActive(views);
    }

    /** `setActive(hostUrl)`: unless the view for `url` is already active,
        deactivate every view, activate the view for `url` if there is one,
        and focus the active view. `focused` is the server URL of the view
        that received focus, if any. */
    method SetActive(url: string) returns (focused: Option<string>)
      requires Valid()
      modifies this
      ensures Valid()
      ensures views == Activated(old(views), url)
      ensures IsActive(old(views), url) ==> views == old(views)
      ensures SameButActive(views, old(views))
      ensures forall j :: 0 <= j < |views| ==> (views[j].active <==> views[j].server == url)
      ensures IsActive(old(views), url) ==> focused.None?
      ensures !IsActive(old(views), url) ==>
                (focused.Some? <==> exists j :: 0 <= j < |views| && views[j].server == url)
      ensures focused.Some? ==> focused.value == url
    {
      ActivatedConsistent(views, url);
      ActivatedExact(views, url);
      if IsActive(views, url) {
        return None;
      }
      DeactiveAll();
      var item := Get(views, url);
      if item.Some? {
        views := views[item.value := views[item.value].(active := true)];
      }
      focused := FocusActive();
    }

    /** `focusActive`: the view that `getActive` finds receives focus. */
    method FocusActive() returns (focused: Option<string>)
      ensures focused.Some? <==> GetActive(views).Some?
      ensures focused.Some? ==> focused.value == views[GetActive(views).value].server
    {
      var active := GetActive(views);
      if active.Some? {
        focused := Some(views[active.value].server);
      } else {
        focused := None;
      }
    }

    /** `add(server)`: create and append a view for `server.url` unless one exists. */
    method Add(server: Server)
      requires Valid()
      modifies this
      ensures Valid()
      ensures views == Added(old(views), server)
      ensures views == old(views) || views == old(views) + [NewView(server)]
      ensures exists j :: 0 <= j < |views| && views[j].server == server.url
    {
      AddedConsistent(views, server);
      var webview := Get(views, server.url);
      if webview.Some? {
        return;
      }
      views := views + [NewView(server)];
      assert views[|views| - 1].server == server.url;
    }

    /** `remove({url})`: detach the view for `url`, if there is one. */
    method Remove(url: string)
      requires Valid()
      modifies this
      ensures Valid()
      ensures views == Removed(old(views), url)
      ensures views == Without(old(views), url)
    {
      RemovedIsWithout(views, url);
      RemovedConsistent(views, url);
      var webview := Get(views, url);
      if webview.Some? {
        views := views[..webview.value] + views[webview.value + 1..];
      }
    }

    /** The `dom-ready` listener of the view for `url`: mark it ready and
        emit `dom-ready` for its server. */
    method HandleDomReady(url: string) returns (e: Emitted)
      requires Valid()
      modifies this
      ensures Valid()
      ensures views == Readied(old(views), url)
      ensures e == DomReady(url)
    {
      ReadiedSpec(views, url);
      var webview := Get(views, url);
      if webview.Some? {
        views := views[webview.value := views[webview.value].(ready := true)];
      }
      e := DomReady(url);
    }
  }

}
