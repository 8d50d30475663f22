/** The two list updates of the dashboard component: editing a site's name
    or url builds a new list in which every site with the given id carries
    the new value. Handing the list to React's state setter is not modelled. */
module App {
  import opened Wrappers
  import opened WebsiteApi

  /** `a` and `b` agree on every field but `name`. */
  predicate SameExceptName(a: TrackedWebsite, b: TrackedWebsite)
  {
    a.id == b.id && a.url == b.url && a.lastChecked == b.lastChecked
    && a.lastHash == b.lastHash && a.contentChanged == b.contentChanged
  }

  /** `a` and `b` agree on every field but `url`. */
  predicate SameExceptUrl(a: TrackedWebsite, b: TrackedWebsite)
  {
    a.id == b.id && a.name == b.name && a.lastChecked == b.lastChecked
    && a.lastHash == b.lastHash && a.contentChanged == b.contentChanged
  }

  /** `handleNameChange(id, newName)`: the sites with that id are renamed,
      every other site is kept as it is. */
  function HandleNameChange(sites: seq<TrackedWebsite>, id: int, newName: string): (r: seq<TrackedWebsite>)
    ensures |r| == |sites|
    ensures forall i :: 0 <= i < |sites| ==> r[i].id == sites[i].id && r[i].url == sites[i].url
    ensures forall i :: 0 <= i < |sites| && sites[i].id == id ==>
      r[i].name == Some(newName) && SameExceptName(r[i], sites[i])
    ensures forall i :: 0 <= i < |sites| && sites[i].id != id ==> r[i] == sites[i]
    ensures (forall i :: 0 <= i < |sites| ==> sites[i].id != id) ==> r == sites
  {
    seq(|sites|, i requires 0 <= i < |sites| =>
      if sites[i].id == id then sites[i].(name := Some(newName)) else sites[i])
  }

  /** `handleUrlChange(id, newUrl)`: the sites with that id get the new url,
      every other site is kept as it is. */
  function HandleUrlChange(sites: seq<TrackedWebsite>, id: int, newUrl: string): (r: seq<TrackedWebsite>)
    ensures |r| == |sites|
    ensures forall i :: 0 <= i < |sites| ==> r[i].id == sites[i].id && r[i].name == sites[i].name
    ensures forall i :: 0 <= i < |sites| && sites[i].id == id ==>
      r[i].url == newUrl && SameExceptUrl(r[i], sites[i])
    ensures forall i :: 0 <= i < |sites| && sites[i].id != id ==> r[i] == sites[i]
    ensures (forall i :: 0 <= i < |sites| ==> sites[i].id != id) ==> r == sites
  {
    seq(|sites|, i requires 0 <= i < |sites| =>
      if sites[i].id == id then sites[i].(url := newUrl) else sites[i])
  }

  /** Renaming twice in a row with the same arguments is renaming once. */
  lemma HandleNameChangeIdempotent(sites: seq<TrackedWebsite>, id: int, newName: string)
    ensures HandleNameChange(HandleNameChange(sites, id, newName), id, newName)
         == HandleNameChange(sites, id, newName)
  {
  }

  /** Changing a url twice in a row with the same arguments is changing it once. */
  lemma HandleUrlChangeIdempotent(sites: seq<TrackedWebsite>, id: int, newUrl: string)
    ensures HandleUrlChange(HandleUrlChange(sites, id, newUrl), id, newUrl)
         == HandleUrlChange(sites, id, newUrl)
  {
  }

  /** Renaming and changing the url touch different fields, so their order does not matter. */
  lemma NameAndUrlChangesCommute(sites: seq<TrackedWebsite>, id: int, newName: string, newUrl: string)
    ensures HandleUrlChange(HandleNameChange(sites, id, newName), id, newUrl)
         == HandleNameChange(HandleUrlChange(sites, id, newUrl), id, newName)
  {
  }
}
