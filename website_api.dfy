/** The pure part of the web client's `WebsiteApiService`: deriving a display
    name from a URL, filling in the optional fields of a record received from
    the server, and choosing which record `addWebsite` returns once the
    refreshed list has arrived. The HTTP calls themselves are not modelled;
    what they deliver (the fetched list, the server's echo of the request,
    the current time and the browser's URL parser) comes in as parameters. */
module WebsiteApi {
  import opened Wrappers
  import opened JsStrings

  /** A tracked website as the client sees it; `name` and `contentChanged`
      are optional (`undefined` is `None`). */
  datatype TrackedWebsite = TrackedWebsite(
    id: int,
    url: string,
    lastChecked: string,
    lastHash: string,
    name: Option<string>,
    contentChanged: Option<bool>)

  /** The body of the add request, which the server echoes back. */
  datatype WebsiteRequest = WebsiteRequest(url: string, content: string)

  /** The browser's `new URL(url).hostname`; `None` when the constructor throws. */
  type HostnameOf = string -> Option<string>

  /** JavaScript truthiness of an optional string: present and not empty. */
  predicate Truthy(name: Option<string>)
  {
    name.Some? && name.value != []
  }

  /** `hostname.replace("www.", "")`: a host without `"www."` is unchanged;
      otherwise only the first occurrence, wherever it is, is removed, and
      what follows it, a later `"www."` included, is kept verbatim. */
  function StripWww(host: string): (r: string)
    ensures (forall j :: !OccursAt(host, "www.", j)) ==> r == host
    ensures forall i :: OccursAt(host, "www.", i) && (forall j :: 0 <= j < i ==> !OccursAt(host, "www.", j)) ==>
      r == host[..i] + host[i + 4..]
  {
    ReplaceFirst(host, "www.", "")
  }

  /** `.split(".").slice(0, -1).join(".")`: drop the last dot-separated
      label. What is left is exactly the part before the last dot, interior
      dots included; a host without a dot leaves the empty string. */
  function StripLastLabel(host: string): (r: string)
    ensures '.' !in host ==> r == []
    ensures '.' in host ==> r == host[..LastIndexOfChar(host, '.')]
  {
    LabelsBeforeLastDot(host);
    Join(DropLast(Split(host, '.')), ".")
  }

  /** The chain of `StripLastLabel` keeps what precedes the last dot. */
  lemma LabelsBeforeLastDot(host: string)
    ensures '.' !in host ==> Join(DropLast(Split(host, '.')), ".") == []
    ensures '.' in host ==> Join(DropLast(Split(host, '.')), ".") == host[..LastIndexOfChar(host, '.')]
  {
    if '.' !in host {
      SplitWithoutSep(host, '.');
    } else {
      var k := LastIndexOfChar(host, '.');
      var x, y := host[..k], host[k + 1..];
      assert host == x + ['.'] + y;
      SplitConcat(x, '.', y);
      SplitWithoutSep(y, '.');
      assert DropLast(Split(x, '.') + [y]) == Split(x, '.');
      JoinSplit(x, '.');
    }
  }

  /** `word.charAt(0).toUpperCase() + word.slice(1)`: the first character
      upper-cased, the rest kept; the empty word stays empty. */
  function CapitalizeWord(word: string): (r: string)
    ensures |r| == |word|
    ensures word != [] ==> r[0] == UpperAscii(word[0]) && r[1..] == word[1..]
  {
    if word == [] then [] else [UpperAscii(word[0])] + word[1..]
  }

  /** `words.map(capitalize)`. */
  function CapitalizeEach(words: seq<string>): (r: seq<string>)
    ensures |r| == |words|
    ensures forall k :: 0 <= k < |words| ==> r[k] == CapitalizeWord(words[k])
  {
    seq(|words|, k requires 0 <= k < |words| => CapitalizeWord(words[k]))
  }

  /** `.split("-").map(capitalize).join(" ")`. */
  function CapitalizeWords(s: string): string
  {
    Join(CapitalizeEach(Split(s, '-')), " ")
  }

  /** The name the chain in `extractNameFromUrl` derives from a hostname.
      With `s` the hostname after its first `"www."` is removed: no dot in
      `s` gives the empty name (`localhost` yields `""`); otherwise the name
      is as long as the part of `s` before its last dot and is that part
      capitalised position by position. */
  function NameFromHostname(host: string): (r: string)
    ensures var s := StripWww(host);
      && ('.' !in s ==> r == [])
      && ('.' in s ==>
            && |r| < |s| && s[|r|] == '.' && '.' !in s[|r| + 1..]
            && forall i :: 0 <= i < |r| ==> r[i] == CapitalizedAt(s, i))
  {
    var s := StripWww(host);
    NameOfStripped(s);
    CapitalizeWords(StripLastLabel(s))
  }

  /** `extractNameFromUrl`: the name derived from the URL's hostname, or the
      URL itself when it does not parse. */
  function ExtractNameFromUrl(url: string, hostname: HostnameOf): (r: string)
    ensures hostname(url).None? ==> r == url
    ensures hostname(url).Some? ==> r == NameFromHostname(hostname(url).value)
  {
    match hostname(url)
    case None => url
    case Some(host) => NameFromHostname(host)
  }

  /** Character `i` of the capitalised form of `s`, stated position by
      position: a hyphen becomes a space, the first character and every
      character after a hyphen is upper-cased, every other one is kept. */
  function CapitalizedAt(s: string, i: nat): char
    requires i < |s|
  {
    if s[i] == '-' then ' '
    else if i == 0 || s[i - 1] == '-' then UpperAscii(s[i])
    else s[i]
  }

  /** Dropping the last label keeps exactly what precedes the last dot,
      interior dots included. */
  lemma StripLastLabelAt(host: string, k: nat)
    requires k < |host| && host[k] == '.' && '.' !in host[k + 1..]
    ensures StripLastLabel(host) == host[..k]
  {
    var last := LastIndexOfChar(host, '.');
    assert last == k;
  }

  /** A word with no hyphen is capitalised position by position. */
  lemma CapitalizeWordAt(word: string)
    requires '-' !in word
    ensures forall i :: 0 <= i < |word| ==> CapitalizeWord(word)[i] == CapitalizedAt(word, i)
  {
  }

  /** Capitalising words splits at the first hyphen: the first word is
      capitalised alone and the hyphen becomes one space. */
  lemma CapitalizeWordsFirstHyphen(x: string, y: string)
    requires '-' !in x
    ensures CapitalizeWords(x + ['-'] + y) == CapitalizeWord(x) + " " + CapitalizeWords(y)
  {
    SplitConcat(x, '-', y);
    SplitWithoutSep(x, '-');
    var words := [x] + Split(y, '-');
    assert CapitalizeEach(words) == [CapitalizeWord(x)] + CapitalizeEach(Split(y, '-'));
    assert CapitalizeEach(words)[1..] == CapitalizeEach(Split(y, '-'));
  }

  /** The capitalisation keeps the length, turns every hyphen into exactly
      one space, upper-cases the first character of each word and leaves
      every other character alone; an empty word stays empty. */
  lemma {:induction false} CapitalizeWordsAt(s: string)
    ensures |CapitalizeWords(s)| == |s|
    ensures forall i :: 0 <= i < |s| ==> CapitalizeWords(s)[i] == CapitalizedAt(s, i)
    decreases |s|
  {
    if '-' !in s {
      CapitalizeWordsSingle(s);
      CapitalizeWordAt(s);
    } else {
      var k := FirstIndexOfChar(s, '-');
      var x, y := s[..k], s[k + 1..];
      assert s == x + ['-'] + y;
      CapitalizeWordsFirstHyphen(x, y);
      CapitalizeWordAt(x);
      CapitalizeWordsAt(y);
      CapitalizedAroundHyphen(s, k, CapitalizeWord(x), CapitalizeWords(y));
    }
  }

  /** Around the first hyphen of `s`, at `k`: the capitalised part before it,
      one space and the capitalised part after it together are `s`
      capitalised position by position. */
  lemma CapitalizedAroundHyphen(s: string, k: nat, a: string, b: string)
    requires k < |s| && s[k] == '-' && '-' !in s[..k]
    requires |a| == k && forall i :: 0 <= i < k ==> a[i] == CapitalizedAt(s[..k], i)
    requires |b| == |s| - k - 1 && forall i :: 0 <= i < |b| ==> b[i] == CapitalizedAt(s[k + 1..], i)
    ensures |a + " " + b| == |s|
    ensures forall i :: 0 <= i < |s| ==> (a + " " + b)[i] == CapitalizedAt(s, i)
  {
    forall i | 0 <= i < |s|
      ensures (a + " " + b)[i] == CapitalizedAt(s, i)
    {
      if i < k {
        assert s[..k][i] == s[i];
      } else if i > k {
        assert s[k + 1..][i - k - 1] == s[i];
      }
    }
  }

  /** Capitalising what precedes the last dot of `s`, position by position. */
  lemma NameOfStripped(s: string)
    ensures var r := CapitalizeWords(StripLastLabel(s));
      && ('.' !in s ==> r == [])
      && ('.' in s ==>
            && |r| < |s| && s[|r|] == '.' && '.' !in s[|r| + 1..]
            && forall i :: 0 <= i < |r| ==> r[i] == CapitalizedAt(s, i))
  {
    if '.' !in s {
      assert Split([], '-') == [[]];
      assert CapitalizeEach([[]]) == [[]];
    } else {
      var k := LastIndexOfChar(s, '.');
      CapitalizeWordsAt(s[..k]);
    }
  }

  /** The name of a word without hyphens is the word with its first letter upper-cased. */
  lemma CapitalizeWordsSingle(s: string)
    requires '-' !in s
    ensures CapitalizeWords(s) == CapitalizeWord(s)
  {
    SplitWithoutSep(s, '-');
    assert CapitalizeEach([s]) == [CapitalizeWord(s)];
  }

  /** A leading `"www."` is the one removed, whatever follows it. */
  lemma StripWwwLeading(rest: string)
    ensures StripWww("www." + rest) == rest
  {
    var h := "www." + rest;
    assert OccursAt(h, "www.", 0) by { assert h[0..4] == "www."; }
    assert h[..0] + h[4..] == rest;
  }

  /** `www.<domain>.<tld>` is named by its domain label with the first letter
      upper-cased; the domain label may itself hold dots, a second `www.` included. */
  lemma NameOfWwwHost(host: string, domain: string, tld: string)
    requires host == "www." + domain + "." + tld
    requires '.' !in tld && '-' !in domain
    ensures NameFromHostname(host) == CapitalizeWord(domain)
  {
    var s := domain + "." + tld;
    assert host == "www." + s;
    StripWwwLeading(s);
    assert s[|domain| + 1..] == tld;
    StripLastLabelAt(s, |domain|);
    assert s[..|domain|] == domain;
    CapitalizeWordsSingle(domain);
  }

  /** `transformWebsiteData`: the record with `name` filled in from the URL
      when it is missing or empty and `contentChanged` defaulted to false. */
  function TransformWebsiteData(w: TrackedWebsite, hostname: HostnameOf): (r: TrackedWebsite)
    ensures r.id == w.id && r.url == w.url && r.lastChecked == w.lastChecked && r.lastHash == w.lastHash
    ensures Truthy(w.name) ==> r.name == w.name
    ensures !Truthy(w.name) ==> r.name == Some(ExtractNameFromUrl(w.url, hostname))
    ensures w.contentChanged.Some? ==> r.contentChanged == w.contentChanged
    ensures w.contentChanged.None? ==> r.contentChanged == Some(false)
  {
    w.(name := Some(if Truthy(w.name) then w.name.value else ExtractNameFromUrl(w.url, hostname)),
       contentChanged := Some(w.contentChanged.GetOr(false)))
  }

  /** A record whose optional fields are both present. */
  predicate Filled(w: TrackedWebsite)
  {
    w.name.Some? && w.contentChanged.Some?
  }

  /** Transforming fills both optional fields, and transforming again changes nothing. */
  lemma TransformIdempotent(w: TrackedWebsite, hostname: HostnameOf)
    ensures Filled(TransformWebsiteData(w, hostname))
    ensures TransformWebsiteData(TransformWebsiteData(w, hostname), hostname) == TransformWebsiteData(w, hostname)
  {
  }

  /** A record that already has a non-empty name and a defined flag is left as it is. */
  lemma TransformKeepsComplete(w: TrackedWebsite, hostname: HostnameOf)
    requires Truthy(w.name) && w.contentChanged.Some?
    ensures TransformWebsiteData(w, hostname) == w
  {
  }

  /** `data.map(transformWebsiteData)`, as `getAllWebsites` applies it to the server's list. */
  function TransformAll(data: seq<TrackedWebsite>, hostname: HostnameOf): (r: seq<TrackedWebsite>)
    ensures |r| == |data|
    ensures forall k :: 0 <= k < |data| ==> r[k] == TransformWebsiteData(data[k], hostname)
  {
    seq(|data|, k requires 0 <= k < |data| => TransformWebsiteData(data[k], hostname))
  }

  /** `sites.find(site => site.url === url)`, as an index: the first site with that url. */
  function FindByUrl(sites: seq<TrackedWebsite>, url: string, from: nat): (r: Option<nat>)
    ensures r.Some? ==> from <= r.value < |sites| && sites[r.value].url == url
    ensures r.Some? ==> forall j :: from <= j < r.value ==> sites[j].url != url
    ensures r.None? ==> forall j :: from <= j < |sites| ==> sites[j].url != url
    decreases |sites| - from
  {
    if from >= |sites| then None
    else if sites[from].url == url then Some(from)
    else FindByUrl(sites, url, from + 1)
  }

  /** The record `addWebsite` builds when the new site is not in the list. */
  function Fallback(response: WebsiteRequest, now: string, hostname: HostnameOf): TrackedWebsite
  {
    TrackedWebsite(-1, response.url, now, response.content,
                   Some(ExtractNameFromUrl(response.url, hostname)), Some(false))
  }

  /** What `addWebsite` returns once the POST has been answered with
      `response` and the refreshed list `websites` has arrived; `now` is the
      clock reading for the fallback's `lastChecked`. The first site with the
      requested url is returned; only when there is none, a fallback record
      with the placeholder id -1, the echoed url and content, the derived
      name and no change. */
  function AddWebsiteResult(websites: seq<TrackedWebsite>, url: string, response: WebsiteRequest,
                            now: string, hostname: HostnameOf): (r: TrackedWebsite)
    ensures (exists i :: 0 <= i < |websites| && websites[i].url == url) ==>
      exists i :: 0 <= i < |websites| && r == websites[i] && websites[i].url == url
        && forall j :: 0 <= j < i ==> websites[j].url != url
    ensures (forall i :: 0 <= i < |websites| ==> websites[i].url != url) ==>
      && r.id == -1 && r.url == response.url && r.lastChecked == now
      && r.lastHash == response.content
      && r.name == Some(ExtractNameFromUrl(response.url, hostname))
      && r.contentChanged == Some(false)
  {
    match FindByUrl(websites, url, 0)
    case Some(i) => websites[i]
    case None => Fallback(response, now, hostname)
  }

  /** The list `addWebsite` searches is the transformed one, so whichever
      branch is taken the returned record has both optional fields. */
  lemma AddWebsiteResultFilled(data: seq<TrackedWebsite>, url: string, response: WebsiteRequest,
                               now: string, hostname: HostnameOf)
    ensures Filled(AddWebsiteResult(TransformAll(data, hostname), url, response, now, hostname))
  {
    var websites := TransformAll(data, hostname);
    match FindByUrl(websites, url, 0)
    case Some(i) =>
      TransformIdempotent(data[i], hostname);
    case None =>
  }
}
