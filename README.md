# Website monitor web client: name derivation, record defaults and list updates

The repository is a small website monitor. Its ASP.NET back end stores
tracked websites in SQLite. Its React front end lists them, lets the user
edit a site's name and url, and asks the server for changes. Almost all of
it is storage, HTTP and rendering. This project models the deterministic
logic of the front end:

- **Name derivation** (`extractNameFromUrl` in `WebsiteApiService`). It takes
  the URL's hostname, removes the first `"www."`, drops the last
  dot-separated label, and turns the hyphen-separated words into
  space-separated words with upper-cased initials. A URL the browser cannot
  parse is used as its own name.
- **Record defaults** (`transformWebsiteData`). A record from the server gets
  a derived `name` when its name is missing or empty, and `contentChanged`
  becomes `false` when it is undefined. Every other field is kept.
- **The tail of `addWebsite`**. After the POST and the refreshed list come
  back, it returns the first listed site with the requested url. If there is
  none, it returns a fallback record with the placeholder id -1.
- **The dashboard's edit handlers** (`handleNameChange`, `handleUrlChange`).
  Each builds a new list in which every site with the given id carries the
  new name or url.

Modules:

- `Wrappers` (wrappers.dfy): `Option`, used for TypeScript's optional fields.
- `JsStrings` (js_strings.dfy): the JavaScript built-ins the name derivation
  is chained from. These are `indexOf`, `replace` with a string pattern,
  `split` on one character, `join`, `slice(0, -1)` and ASCII `toUpperCase`.
  It also proves the split/join round trip.
- `WebsiteApi` (website_api.dfy): the records, the name derivation,
  `transformWebsiteData`, `getAllWebsites`'s mapping and the `addWebsite`
  selection.
- `NameExamples` (name_examples.dfy): a few hostnames and hostname
  shapes worked through the derivation.
- `App` (app.dfy): the two edit handlers.

The browser's URL parser (`new URL(url).hostname`) is a parameter
`hostname: string -> Option<string>`, where `None` stands for the
constructor throwing. The clock reading `new Date().toISOString()` used by
the `addWebsite` fallback is the parameter `now`. The server's reply to the
POST is the parameter `response`; the back end echoes the request
(backend/hackathon/Controllers/WebsiteController.cs:58). The list that
`addWebsite` searches is the one `getAllWebsites` returns, which has already
been through `transformWebsiteData`. `AddWebsiteResultFilled` takes that
into account.

## Model

| member | source | states |
|---|---|---|
| `JsStrings.IndexOfFrom` | frontend/hackathon/src/api.tsx:143 | The index returned is an occurrence of the pattern at or after the start, and no earlier position there is one. `None` means the pattern occurs nowhere from the start on. |
| `JsStrings.IndexOf` | frontend/hackathon/src/api.tsx:143 | The index returned is the first occurrence of the pattern. `None` means the pattern does not occur. |
| `JsStrings.ReplaceFirst` | frontend/hackathon/src/api.tsx:143 | With a string pattern, `replace` replaces exactly the first occurrence. What comes before it and everything after it, later occurrences included, is kept verbatim. Without an occurrence the string is unchanged. |
| `JsStrings.Split` | frontend/hackathon/src/api.tsx:144 | `split` on one character always yields at least one piece, and no piece contains the separator. |
| `JsStrings.Join` | frontend/hackathon/src/api.tsx:146-149 | `join` of no parts is the empty string. Otherwise the result starts with the first part and is as long as all parts together plus one separator for each gap. |
| `JsStrings.JoinSplit` | frontend/hackathon/src/api.tsx:144-146 | Joining the pieces of a split with the same separator gives back the original string. |
| `JsStrings.SplitJoin` | frontend/hackathon/src/api.tsx:144-149 | Splitting a join of one or more parts that are free of the separator gives back exactly those parts. The join of no parts is `""`, which splits into `[""]`, so the empty list is excluded. |
| `JsStrings.SplitConcat` | frontend/hackathon/src/api.tsx:144 | Splitting `x + sep + y` gives the pieces of `x` followed by the pieces of `y`. |
| `JsStrings.SplitWithoutSep` | frontend/hackathon/src/api.tsx:144 | A string without the separator splits into itself alone. |
| `JsStrings.DropLast` | frontend/hackathon/src/api.tsx:145 | `slice(0, -1)` keeps every element but the last, in order. An empty array stays empty. |
| `JsStrings.UpperAscii` | frontend/hackathon/src/api.tsx:148 | `a`-`z` map to `A`-`Z` by the fixed ASCII offset. Every other character is unchanged. |
| `WebsiteApi.CapitalizeWord` | frontend/hackathon/src/api.tsx:148 | The mapped function keeps the word's length. A non-empty word gets its first character upper-cased and every later character kept. The empty word stays empty. |
| `WebsiteApi.CapitalizeWordAt` | frontend/hackathon/src/api.tsx:148 | A word without a hyphen, capitalised, has at each position the character its position-by-position form gives: the first upper-cased, the rest kept. |
| `WebsiteApi.CapitalizeEach` | frontend/hackathon/src/api.tsx:148 | `map` keeps the number of words, and each word is capitalised on its own, in place. |
| `WebsiteApi.CapitalizeWords` | frontend/hackathon/src/api.tsx:147-149 | The split on `-`, map and join with a space. It has no contract of its own; `CapitalizeWordsAt` states what it computes. |
| `WebsiteApi.StripLastLabel` | frontend/hackathon/src/api.tsx:144-146 | Dropping the last label of a host without a dot, such as `localhost`, leaves the empty string. For a host with a dot it leaves exactly what precedes the last dot, interior dots included. |
| `WebsiteApi.LabelsBeforeLastDot` | frontend/hackathon/src/api.tsx:144-146 | The split on `.`, `slice(0, -1)` and join with `.` leave the empty string for a host without a dot, and exactly what precedes the last dot otherwise. |
| `WebsiteApi.StripLastLabelAt` | frontend/hackathon/src/api.tsx:144-146 | Dropping the last label leaves exactly what comes before the last dot, interior dots included. |
| `WebsiteApi.CapitalizeWordsFirstHyphen` | frontend/hackathon/src/api.tsx:147-149 | At the first hyphen, the first word is capitalised on its own, the hyphen becomes one space, and the rest is handled independently. |
| `WebsiteApi.CapitalizeWordsAt` | frontend/hackathon/src/api.tsx:147-149 | Output length equals input length. Position by position, every `-` becomes one space, the first character of each hyphen-separated word is upper-cased, and every other character is kept. Empty words stay empty. |
| `WebsiteApi.CapitalizedAroundHyphen` | frontend/hackathon/src/api.tsx:147-149 | Around the first hyphen, the capitalised part before it, the one space and the capitalised part after it line up with the whole string capitalised position by position. |
| `WebsiteApi.CapitalizeWordsSingle` | frontend/hackathon/src/api.tsx:147-149 | A string without a hyphen is one word, capitalised on its own. |
| `WebsiteApi.NameFromHostname` | frontend/hackathon/src/api.tsx:142-149 | Let `s` be the hostname with its first `www.` removed. If `s` has no dot, the name is empty. Otherwise the name is as long as the part of `s` before its last dot and equals that part capitalised position by position. |
| `WebsiteApi.NameOfStripped` | frontend/hackathon/src/api.tsx:144-149 | Once `www.` is removed: no dot gives the empty name; otherwise the name has the length of, and is position by position the capitalisation of, the part before the last dot. |
| `WebsiteApi.StripWww` | frontend/hackathon/src/api.tsx:143 | Only the first occurrence of `www.` is removed, wherever it is, and the rest is kept verbatim. A host without `www.` is unchanged. |
| `WebsiteApi.StripWwwLeading` | frontend/hackathon/src/api.tsx:143 | A leading `www.` is removed and whatever follows is kept. |
| `WebsiteApi.NameOfWwwHost` | frontend/hackathon/src/api.tsx:142-149 | `www.<domain>.<tld>`, with a dot-free tld and a hyphen-free domain, is named by the domain with its first letter upper-cased. Dots inside the domain, including a second `www.`, are kept. |
| `WebsiteApi.ExtractNameFromUrl` | frontend/hackathon/src/api.tsx:139-153 | If the URL parser rejects the url, the url itself is returned. Otherwise the result is the name derived from the parsed hostname. |
| `WebsiteApi.TransformWebsiteData` | frontend/hackathon/src/api.tsx:127-136 | `id`, `url`, `lastChecked` and `lastHash` are kept. A present non-empty `name` is kept; a missing or empty one becomes the name derived from the url. A defined `contentChanged` is kept; an undefined one becomes `false`. |
| `WebsiteApi.TransformIdempotent` | frontend/hackathon/src/api.tsx:127-136 | The result always has both optional fields, and transforming it again changes nothing. |
| `WebsiteApi.TransformKeepsComplete` | frontend/hackathon/src/api.tsx:127-136 | A record that already has a non-empty name and a defined `contentChanged` is returned unchanged. |
| `WebsiteApi.TransformAll` | frontend/hackathon/src/api.tsx:42 | The mapped list has the same length, and each element is the transform of the element at the same index. |
| `WebsiteApi.FindByUrl` | frontend/hackathon/src/api.tsx:62 | `find` yields the first index from the start whose site has the url. `None` means no site from there on has it. |
| `WebsiteApi.Fallback` | frontend/hackathon/src/api.tsx:69-76 | The literal fallback record. It has no contract of its own; `AddWebsiteResult` states its fields. |
| `WebsiteApi.AddWebsiteResult` | frontend/hackathon/src/api.tsx:61-76 | If some listed site has the requested url, the first such site is returned. Only if none has it is the fallback returned: id -1, the echoed url and content, the clock reading, the name derived from the echoed url, and `contentChanged = false`. |
| `WebsiteApi.AddWebsiteResultFilled` | frontend/hackathon/src/api.tsx:42-76 | Searching the transformed list, `addWebsite` always returns a record with both `name` and `contentChanged` present, whichever branch it takes. |
| `NameExamples.NameOfWwwExampleCom` | frontend/hackathon/src/api.tsx:142-149 | `www.example.com` is named `Example`. |
| `NameExamples.NameOfDoubleWww` | frontend/hackathon/src/api.tsx:142-149 | `www.www.<domain>.<tld>` is named `Www.<domain>` (so `www.www.example.com` is `Www.example`), because only the first `www.` is removed. |
| `NameExamples.NameOfSingleLabel` | frontend/hackathon/src/api.tsx:142-149 | A hostname without a dot, such as `localhost`, has no `www.` to remove and is named with the empty string. |
| `App.HandleNameChange` | frontend/hackathon/src/App.tsx:146-150 | Same length, with ids and urls unchanged at every position. Each site with the id gets the new name and keeps its other fields. Every other site is unchanged. With no site having the id, the list is unchanged. |
| `App.HandleUrlChange` | frontend/hackathon/src/App.tsx:152-156 | Same length, with ids and names unchanged at every position. Each site with the id gets the new url and keeps its other fields. Every other site is unchanged. With no site having the id, the list is unchanged. |
| `App.HandleNameChangeIdempotent` | frontend/hackathon/src/App.tsx:146-150 | Applying the same rename twice equals applying it once. |
| `App.HandleUrlChangeIdempotent` | frontend/hackathon/src/App.tsx:152-156 | Applying the same url change twice equals applying it once. |
| `App.NameAndUrlChangesCommute` | frontend/hackathon/src/App.tsx:146-156 | A rename and a url change for the same id give the same list in either order, since each touches only its own field. |

## Left out

- The HTTP calls of `WebsiteApiService`: `getWebsiteById`, `getAllWebsites`, `updateWebsite`, `checkForChanges`, `fetchWebsiteContent` and the POST in `addWebsite`. These are network I/O. `getWebsiteById`, `getAllWebsites` and `updateWebsite` log and rethrow. `checkForChanges` logs and falls back to `getAllWebsites`. `fetchWebsiteContent` logs and returns the placeholder string `"Failed to fetch content"`. `addWebsite`'s POST has no handler. Only their pure parts are modelled: the `map(transformWebsiteData)` (`TransformAll`) and the selection after `addWebsite`'s awaits. An `addWebsite` whose POST or refresh throws propagates the error and is not modelled.
- There is no back-end endpoint for `updateWebsite` or `checkChanges`; the controller defines only `website`, `allWebsites` and `addWebsite`. The model has nothing to say about them.
- `new URL(url).hostname`: the browser's URL parser is a foreign call. It is the abstract parameter `hostname`.
- `IndexOfFrom`: a start beyond the end of the string gives `None`, where JavaScript clamps it to the length. Only the empty pattern tells the two apart, and the model only searches from 0.
- `ReplaceFirst`: the replacement is inserted literally. JavaScript's `$&`, `$$`, `` $` `` and `$'` patterns in a replacement string are not expanded. The client's only replacement is the empty string.
- `UpperAscii`: JavaScript's `toUpperCase` is Unicode-aware (for example `ß` becomes `SS`). The model upper-cases only ASCII `a`-`z` and leaves every other character as it is. Hostnames produced by the URL parser are ASCII, so this matters only for characters the model does not expect.
- `TransformWebsiteData`: a JSON `null` in `contentChanged` would survive the `!== undefined` test. The TypeScript type allows only a boolean or `undefined`, so the model has just present and absent.
- `ExtractNameFromUrl`: only the URL constructor can throw inside the `try`, so the `catch` branch is exactly the parser returning `None`.
- `FindByUrl`: it returns the index of the found site instead of the site itself. `AddWebsiteResult` returns the site at that index.
- The `lastChecked` of the fallback record comes from the clock. It is the caller-supplied `now`.
- React rendering, hover, loading and error state, `useEffect`, and the write of the new list through `setSites` are UI and not modelled. The change flag displayed there reads `site.hasChanges`, which is not a field of `TrackedWebsite`.
- The ASP.NET controllers, `Program.cs`, the EF Core context, the entity class and the migrations are storage and an OpenAI call, with no logic to prove. The back end stores the submitted content verbatim as `LastHash` and the current UTC time as `LastChecked` (backend/hackathon/Controllers/WebsiteController.cs:49-54), and never compares versions.
