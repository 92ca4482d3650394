# Varulv vote counter and thread scraper, modelled in Dafny

This project models the vote counter for the werewolf ("Varulv") forum games on
rollspel.nu and the scripts that fill its data folder.

The browser page (scripts/app.js) works in these steps:

- It reads the saved pages of one thread.
- It parses a vote from every post line of the form `Röst: … <a …>@name</a>`.
- It cuts the votes off at the time slider's limit.
- In the "latest" view it keeps only each voter's last vote.
- It draws a leaderboard:
  - the votes per player and the instant of each player's first vote;
  - the ranking and the summary line;
  - one table row per vote, with the leader and runner-up after that vote and the voter's chain of choices;
  - a player filter on the rows;
  - a CSV export.
- In live mode it replays the votes one frame per timer tick.

The Python scripts do the rest:

- fetch_all_threads_final_cleaned.py collects the thread links from the forum listing and downloads each thread's pages. It checks each page's `<title>` against the page number.
- find_duplicates.py re-checks the saved pages' titles.
- create_threads_json.py writes the thread index: a cleaned title, a folder name and a page count per thread.

The modules:

- `Wrappers`, `Strings` and `Sorting` hold the generic parts:
  - Python's `strip` and JavaScript's `trim`, with their whitespace sets;
  - substring search and deletion;
  - splitting and joining;
  - decimal digits;
  - code-point string order;
  - a stable insertion sort with its permutation, order and stability proofs.
- `Votes` is the line parser. The regular expression is modelled character by character, with its greedy `.*`.
- `View` holds the time cutoff, the slider, `getLatestVotes` and the view mode.
- `Board` is `renderVotes` and `filterVotes`.
- `Export` is `exportCSV`.
- `Replay` is the replay state machine.
- `ThreadIndex` is create_threads_json.py.
- `TitleCheck` holds both title checks and `verify_titles`.
- `Scraper` holds the link collector and the page downloader.

These inputs are parameters of the model:

- HTML parsing: a post, a page title or a listing page's links;
- the file system: directory listings and the set of pages already saved;
- the network: a response per URL;
- the clock: timer events and instants in milliseconds.

## Model

| member | source | states |
|---|---|---|
| Votes.MatchVote | scripts/app.js:212 | A line yields a captured name exactly when the vote pattern matches somewhere in it. The name is non-empty and holds no `<`. |
| Votes.MatchVoteIsLastAnchor | scripts/app.js:212 | The match starts at the leftmost marker that has a matching anchor after it. Because `.*` is greedy, the captured name belongs to the last anchor on the line. |
| Votes.Search | scripts/app.js:212 | The match search returns the leftmost start and, for it, the rightmost anchor. When it finds nothing, no match exists. |
| Votes.AnchorAtShape | scripts/app.js:212 | The anchor scanner accepts a position exactly when the text there has the shape `<a [^>]*>@([^<]+)</a>`, ignoring case. The capture is the group. |
| Votes.LastAnchor | scripts/app.js:212 | The anchor chosen in a window has no anchor after it in that window. Finding none means the window has none. |
| Votes.PostId | scripts/app.js:207 | Removing the first `js-post-` leaves an empty id only when the element has no id or its id is `js-post-` itself. An id without the prefix is unchanged. |
| Votes.LinesVotes | scripts/app.js:211-213 | Every vote of a post's lines carries the post's author, post id and datetime. A post without an id yields none. |
| Votes.LinesVotesSound | scripts/app.js:211-213 | Every vote comes from a matching line and names that line's trimmed capture. |
| Votes.LinesVotesComplete | scripts/app.js:211-213 | Every matching line of a post with an id yields its vote. |
| Votes.LinesVotesAppend | scripts/app.js:211-214 | Lines are parsed one after the other, so the votes keep line order. |
| Votes.PostVotes | scripts/app.js:205-214 | A post's votes come from its body split at line breaks. Each carries the post's author, non-empty post id and datetime. |
| Votes.ParseVotesSound | scripts/app.js:201-218 | Every parsed vote has a post id and comes from one post of one page. |
| Votes.PostsVotesFrom | scripts/app.js:205-215 | Every vote of a page comes from one of its posts. |
| Votes.ParseVotesAppend | scripts/app.js:203-217 | Pages are parsed in order, so a later page's votes follow an earlier page's. |
| View.SortByTimeSorted | scripts/app.js:287 | The time sort returns a permutation of the votes in non-decreasing instant order. |
| View.SortByTimeStable | scripts/app.js:287 | Votes cast at the same instant keep their relative order. |
| View.Cutoff | scripts/app.js:268-270 | The cutoff keeps exactly the votes at or before the limit. Without a limit it keeps every vote. |
| View.CutoffAppend | scripts/app.js:270 | The cutoff works vote by vote, so it keeps the input order. |
| View.CutoffKeepsLaterLimit | scripts/app.js:270 | A limit at or after every vote removes nothing. |
| View.TimeRange | scripts/app.js:184-185 | The slider range exists exactly when there are votes. Its ends are the instants of the earliest and the latest vote. |
| View.SliderLimit | scripts/app.js:229 | The limit lies within the range, at its start for 0 % and at its end for 100 %. |
| View.SliderLimitMonotone | scripts/app.js:229 | Moving the slider right never moves the limit left. |
| View.FullSliderKeepsAll | scripts/app.js:229 | At 100 % the cutoff keeps every vote. |
| View.LastBy | scripts/app.js:263 | The reference for "a voter's last vote": none exactly for non-voters; otherwise a vote of that voter. |
| View.LastByIsLast | scripts/app.js:263 | No vote after the one `LastBy` picks is by the same voter. |
| View.Assign | scripts/app.js:263 | Assigning `latest[v.from] = v` in order leaves each voter once as a key, holding that voter's last vote. |
| View.LatestVotes | scripts/app.js:261-265 | The result holds one vote per voter and has exactly the input's voters. Each vote is from the input, and no vote by that voter is later. Among votes at the same instant the later one in the input wins. |
| View.WorkingSet | scripts/app.js:267-273 | The rendered set holds only votes at or before the limit. In the "all" view it is the whole cutoff. In the "latest" view it keeps the cutoff's voters. |
| Board.CountToZero | scripts/app.js:288 | A player has no votes exactly when nobody voted for them. |
| Board.TallySpec | scripts/app.js:288 | The counts and firsts hold each voted-for player once. Each count is that player's number of votes. Each first is the instant of that player's earliest vote. |
| Board.TallyStep | scripts/app.js:288 | Counting one more vote keeps that invariant. |
| Board.BumpFacts | scripts/app.js:288 | One vote adds its target's key, or bumps its count by one, and lowers its first if earlier. It leaves every other entry unchanged and raises the total by one. |
| Board.TallyOrder | scripts/app.js:288 | The entries are in the order of each player's first vote. This is the insertion order `Object.entries` enumerates. |
| Board.TallySize | scripts/app.js:288 | There is one entry per voted-for player. |
| Board.RankSorted | scripts/app.js:291 | The ranking is a permutation of the entries. It orders by count, highest first, and then by first vote, earliest first. |
| Board.RankStable | scripts/app.js:291 | Entries that tie on both keys keep their order, because the sort is stable. |
| Board.LatestOf | scripts/app.js:294 | The latest vote is absent exactly when there are no votes. No vote is later, and no earlier vote has the same instant. |
| Board.Summarize | scripts/app.js:287-296 | Over the time-sorted votes, the player at risk has the most votes, and their count is correct. Among equal counts they have the earliest first vote. "Since" is the instant of their first vote. With no votes the summary is "Ingen", 0, unknown, unknown. |
| Board.TopFacts | scripts/app.js:291-292 | Rank 0 is a voted-for player with the most votes, its count is correct, and of equal counts it has the earliest first vote. |
| Board.NoVotesNoCounts | scripts/app.js:292 | An empty ranking means there are no votes, so the "Ingen" fallback applies. |
| Board.SummaryTop | scripts/app.js:291-292 | Any entry that ranks at or before every other has the most votes. |
| Board.Collapse | scripts/app.js:314-315 | A chain is empty only for no choices and ends with the latest choice. It never repeats a player twice in a row. |
| Board.CollapseGrows | scripts/app.js:315 | A new choice extends a chain by at most one player and never rewrites it. |
| Board.CollapseSwitch | scripts/app.js:315 | A chain grows exactly when the new choice differs from the previous one. |
| Board.CollapseFixed | scripts/app.js:315 | A chain is its own collapse exactly when it has no immediate repeats. |
| Board.CollapseKeepsPlayers | scripts/app.js:315 | Collapsing keeps every chosen player. |
| Board.CollapseSnoc | scripts/app.js:315 | Collapsing choice by choice is the push-if-different step. |
| Board.HistoryVoters | scripts/app.js:313-315 | The vote history holds exactly the voters. |
| Board.HistoryChain | scripts/app.js:313-315 | A voter's history is the collapse of their choices in time order. |
| Board.Disp | scripts/app.js:310-311 | A place shows the dash exactly when the standing has no entry there. |
| Board.PrefixFirst | scripts/app.js:309 | In time order, ranking the running counts by the board's first votes is ranking them by the prefix's own first votes. |
| Board.BuildRows | scripts/app.js:307-324 | The loop emits one row per vote. Each row is the row the table means for that vote in time order. |
| Board.Advance | scripts/app.js:308-315 | One loop step turns the running counts and history into those of the next prefix. It appends that prefix's row. |
| Board.RowPlaces | scripts/app.js:309-311 | A row always names a leader. It shows no runner-up exactly when fewer than two players have votes so far. |
| Board.RowChain | scripts/app.js:313-316 | A row's chain is non-empty, ends with the vote's target and has no immediate repeats. |
| Board.ShownMembers | scripts/app.js:347 | The filter shows exactly the rows whose voter is selected, or every row when nothing is selected. |
| Board.ShownAll | scripts/app.js:347 | With nothing selected every row is shown. |
| Board.ShownSnoc | scripts/app.js:346-347 | Rows are filtered one by one, keeping their order. |
| Board.ShownIdempotent | scripts/app.js:347 | Filtering twice is filtering once. |
| Export.LineAsWrittenAmbiguous | scripts/app.js:391 | As written, two votes with different fields can give the same CSV line. |
| Export.CsvLineAgrees | scripts/app.js:391 | For fields without a double quote, the quoted line is the line as written. |
| Export.CsvAsWrittenAgrees | scripts/app.js:389-392 | When no voter, target or datetime holds a double quote, the file `exportCSV` writes is the corrected file and reads back to every vote's fields in order. |
| Export.EscapePlain | scripts/app.js:391 | A field without a double quote needs no escaping. |
| Export.ReadLine | scripts/app.js:391 | Reading a quoted line gives back its three fields and what follows. |
| Export.ExportRoundTrip | scripts/app.js:389-392 | Reading the exported file back gives every vote's voter, target and datetime text, in order. |
| Export.CsvLineInjective | scripts/app.js:391 | Votes with the same quoted line agree on every exported field. |
| Replay.PlayKeepsSound | scripts/app.js:237-243 | Starting a replay keeps at most one replay pending, exactly when the flag is set. While the flag is set, a start changes nothing. |
| Replay.TickKeepsSound | scripts/app.js:245-251 | A timer tick keeps that invariant. |
| Replay.SlideKeepsSound | scripts/app.js:226-233 | A slider move keeps it. With no votes loaded the slider has no range and the move changes nothing. With votes, a live move is a start, and any other move draws the cut-off votes at once. |
| Replay.RunFrames | scripts/app.js:242-251 | An uninterrupted replay renders, after k ticks, exactly the frames for the first 0, 1, …, k captured votes. Each frame uses the view mode read at its tick. |
| Replay.RunEnds | scripts/app.js:246 | The tick after the last frame clears the flag and leaves the frames for 0 … N votes. |
| Replay.SlideDuringLoad | scripts/app.js:169-191 | As written, a live slider move while the new thread's pages are awaited starts a replay of the old votes. The new thread's own start is then refused by the flag, so no replay draws its votes. |
| Replay.ReloadRunsTwoReplays | scripts/app.js:163-193 | As written, a live reload during a replay leaves two replays pending. The old one then draws the previous thread's votes. |
| Replay.StaleCompletion | scripts/app.js:246 | As written, the old replay's last tick clears the flag while the new replay runs, so a live slider move starts a third. |
| Replay.GPlayKeepsSound | scripts/app.js:237-243 | In the corrected machine, starting a replay keeps at most one current replay, exactly when the flag is set. |
| Replay.GTickKeepsSound | scripts/app.js:245-251 | In the corrected machine, a tick keeps that invariant. A stale replay is dropped. |
| Replay.GSlideKeepsSound | scripts/app.js:226-233 | In the corrected machine, a slider move keeps it. With no votes loaded it changes nothing, and with votes a live move is a start. |
| Replay.GUnloadKeepsSound | scripts/app.js:169 | In the corrected machine, the start of a load keeps it. |
| Replay.GLoadKeepsSound | scripts/app.js:163-193 | In the corrected machine, the arrival of a thread's votes keeps it, and so does a whole load, even during a live replay. |
| Replay.GArriveReplaysNew | scripts/app.js:177-191 | In the corrected machine, a live arrival with votes always starts a replay of the new votes. Its replay is the only current one, whatever started while the pages were awaited. |
| Replay.GTickIsCurrent | scripts/app.js:245-251 | In the corrected machine, only the current replay draws frames, each a prefix of its captured votes. Only its closing tick clears the flag. |
| Replay.GPlayRefines | scripts/app.js:237-243 | Without generations, the corrected start is the start as written. |
| Replay.GTickRefines | scripts/app.js:245-251 | Without generations, a current replay's tick is the tick as written. |
| ThreadIndex.CleanTitle | create_threads_json.py:12-24 | A title is dropped exactly when the page has no title tag or its text is empty. |
| ThreadIndex.CleanTitlePlain | create_threads_json.py:16-24 | A title without the prefixes or the site suffix is only stripped. |
| ThreadIndex.CleanTitleDropsPrefixes | create_threads_json.py:17-20 | Without the site suffix, the cleaned title is the stripped title without one "Nekromanti - ", one "Varulv - ", both, or neither. |
| ThreadIndex.CleanTitleDropsSuffix | create_threads_json.py:16-22 | With the site suffix, the prefixes cannot hide it. The cleaned title keeps the text before the suffix's leftmost occurrence, drops that occurrence, and has every later one deleted in the same way; the whole is then stripped. It is stripped and shorter by at least the suffix. |
| Strings.DeleteAllAtFirst | create_threads_json.py:22 | `str.replace` with an empty replacement keeps the text before the leftmost occurrence and deletes that occurrence, then goes on behind it. |
| ThreadIndex.NecroPrefixOnce | create_threads_json.py:17-18 | The necromancy prefix is removed once, not repeatedly. |
| ThreadIndex.PrefixOrder | create_threads_json.py:17-20 | The game prefix alone is removed. |
| ThreadIndex.CountPagesExtremes | create_threads_json.py:26-30 | The page count is 0 exactly when no name is a page file. It equals the number of entries exactly when all are. |
| ThreadIndex.CountPagesAppend | create_threads_json.py:26-30 | The count is additive over parts of the listing. |
| ThreadIndex.CountPagesOrderFree | create_threads_json.py:26-30 | The count does not depend on listing order. |
| ThreadIndex.SelectSound | create_threads_json.py:35-48 | Every index entry is some folder's entry. |
| ThreadIndex.SelectComplete | create_threads_json.py:35-48 | Every folder with an entry is in the index. |
| ThreadIndex.SelectOrdered | create_threads_json.py:35 | Folders taken in name order give entries in slug order. |
| ThreadIndex.IndexFacts | create_threads_json.py:32-48 | The index holds exactly the folders' entries, in slug order. |
| ThreadIndex.EntryFacts | create_threads_json.py:40-48 | An entry comes from a directory with a page1.html and a non-empty cleaned title. Its slug is the folder name and its pages are the page-file count. |
| TitleCheck.PageOneIsSegmentOne | fetch_all_threads_final_cleaned.py:41 | The page-one pattern matches at a position exactly when the page-segment pattern matches there with the digits "1". |
| TitleCheck.PageOneIsSegment | find_duplicates.py:37-38 | A title the page-one pattern matches also has a page segment. |
| TitleCheck.ExpectedIsSegment | find_duplicates.py:36-37 | A title containing "\| Page N \|" has a page segment with N's digits. |
| TitleCheck.VerifyTitle | fetch_all_threads_final_cleaned.py:33-46 | Acceptance comes with an empty message and rejection with a non-empty one. A page without a title is rejected. |
| TitleCheck.PageNameRoundTrip | find_duplicates.py:21-25 | The name a page is saved under reads back as that page, whatever follows it. |
| TitleCheck.ParsePageNameSound | find_duplicates.py:21-25 | A name reads as page n only if it starts with "page", digits worth n and ".html". |
| TitleCheck.CheckFile | find_duplicates.py:30-33 | A missing or blank title is reported as missing. |
| TitleCheck.ChecksAgreeBeyondPageOne | find_duplicates.py:36-42 | For pages after the first, the folder check and the download check accept the same titles. |
| TitleCheck.PageOneCheckIsStricter | find_duplicates.py:37-39 | On page 1, a title the folder check accepts is one the download check accepts. |
| TitleCheck.NoOneAcceptsPageOne | fetch_all_threads_final_cleaned.py:41 | On page 1 the download check accepts any title without a "1". |
| TitleCheck.PageOneChecksDisagree | find_duplicates.py:37-39 | The download check keeps a first page whose title names another page, and the folder check reports it. |
| TitleCheck.BlankTitleWitness | find_duplicates.py:31-33 | The download check keeps a first page with a blank title, and the folder check reports it. |
| TitleCheck.FilesErrorsSound | find_duplicates.py:20-42 | Every error of a directory belongs to one of its page files. |
| TitleCheck.FilesErrorsComplete | find_duplicates.py:20-42 | Every failing page file of a directory is reported. |
| TitleCheck.DirErrorsExact | find_duplicates.py:15-42 | A data-folder entry's errors are exactly its failing page files' errors. Entries that are not directories have none. |
| TitleCheck.AllErrorsExact | find_duplicates.py:13-42 | The error list holds exactly the errors of failing page files in directories of the data folder. |
| TitleCheck.Report | find_duplicates.py:44-50 | The all-correct line is printed exactly when there are no errors. |
| TitleCheck.ErrorLinesInOrder | find_duplicates.py:45-48 | Errors are printed in collection order, each as its message line and then its path line. |
| Scraper.ForumPageUrlInjective | fetch_all_threads_final_cleaned.py:56 | Different listing pages are fetched from different URLs: page 1 from the forum URL, page n > 1 from it plus "page-n". |
| Scraper.PageUrlInjective | fetch_all_threads_final_cleaned.py:102 | Different pages of a thread are fetched from different URLs. |
| Scraper.UrlSetOfCandidates | fetch_all_threads_final_cleaned.py:68-78 | A page's URL set is the set of URLs of its qualifying links. |
| Scraper.DedupUrls | fetch_all_threads_final_cleaned.py:68-78 | Dropping repeated URLs keeps every collected URL. |
| Scraper.DedupSnoc | fetch_all_threads_final_cleaned.py:75-77 | A link is appended exactly when its URL has not been seen. |
| Scraper.DedupDistinct | fetch_all_threads_final_cleaned.py:75-77 | No URL is collected twice. |
| Scraper.DedupFirstSeen | fetch_all_threads_final_cleaned.py:75-77 | Each collected link is the first occurrence of its URL, with the title it first appeared with. |
| Scraper.DedupOrder | fetch_all_threads_final_cleaned.py:75-77 | Collected links keep the order of their URLs' first sightings: the first sighting of an earlier link comes before that of a later one. |
| Scraper.GetThreadLinks | fetch_all_threads_final_cleaned.py:48-87 | The loop fetches listing page k from its own URL and returns the first-seen links of the pages it takes, each URL once. |
| Scraper.AddLinks | fetch_all_threads_final_cleaned.py:68-78 | One page's link loop extends the list and the seen set to those of one more page. It also returns the page's URL set. |
| Scraper.AddLink | fetch_all_threads_final_cleaned.py:69-78 | One link step keeps the list equal to the first-seen links so far, with the seen set equal to their URLs. |
| Scraper.ThreadLinksFacts | fetch_all_threads_final_cleaned.py:48-87 | The result holds exactly the URLs of the pages taken, each once. |
| Scraper.TakenPages | fetch_all_threads_final_cleaned.py:55-85 | Every page taken had status 200 and thread links. Each but the last differs from the page before it. |
| Scraper.TakenStops | fetch_all_threads_final_cleaned.py:55-85 | The collector stops at a failed request, at a page without links, or after a page equal to the one before. Otherwise it stops when the listing ends. |
| Scraper.SlugOfThreadUrl | fetch_all_threads_final_cleaned.py:91-95 | A thread URL built from a name and an id yields "name.id" as folder name. |
| Scraper.SlugSound | fetch_all_threads_final_cleaned.py:91-95 | A folder name follows "/threads/" in the URL and ends in a dot and digits. |
| Scraper.LazyEnd | fetch_all_threads_final_cleaned.py:91 | The lazy `.+?` ends at the first dot followed by a digit, with no line break scanned on the way. It finds none only when every such pair has a line break before it. |
| Scraper.SlugAtShortest | fetch_all_threads_final_cleaned.py:91-95 | A group found at a "/threads/" is as short as `.+?` makes it. No line break comes before its first dot-digit pair after the first character, and that pair ends the lazy part. `\d+` then takes every digit that follows. |
| Scraper.SlugAtNone | fetch_all_threads_final_cleaned.py:91-92 | A "/threads/" that yields no group has a line break before every dot-digit pair behind it. |
| Scraper.SlugFromLeftmost | fetch_all_threads_final_cleaned.py:91-92 | `re.search` takes the group of the leftmost start with a match. It finds none exactly when no start has one. |
| Scraper.SavePagesFacts | fetch_all_threads_final_cleaned.py:101-117 | A page is saved only if it is within the page cap and not already on disk. Its response must have status 200 and a title matching its number. |
| Scraper.SavePagesIncreasing | fetch_all_threads_final_cleaned.py:101 | Pages are saved in increasing order. |
| Scraper.SavePagesChange | fetch_all_threads_final_cleaned.py:119-124 | Two pages saved one after the other differ in cleaned text. |
| Scraper.SavePagesStop | fetch_all_threads_final_cleaned.py:101-124 | The loop stops for a reason. Suppose every earlier page not on disk was saved and page q was not. Then q failed its request or its title check, or its cleaned text repeats that of the page fetched before it. |
| Scraper.SavePagesStops | fetch_all_threads_final_cleaned.py:101-124 | The loop breaks at the first page missing from disk that it does not save: no later page is saved. |
| Scraper.DownloadFacts | fetch_all_threads_final_cleaned.py:89-129 | Without a folder name nothing is saved. Otherwise the saved pages lie within 1..50, were not on disk and are in increasing order. Each was fetched from its own page URL with a matching title. No two in a row have the same cleaned text. After a page missing from disk that is not saved, no later page is saved. |

## Left out

- Parsing HTML (DOMParser, BeautifulSoup, quoted replies removed, the CSS selectors): a post, a page title and a listing page's links are inputs.
- Date parsing: a vote's `datetime` text is kept as text and paired with the instant it denotes. The model has no unparsable dates, no NaN comparisons and no locale formatting (`toLocaleString`).
- The slider's `parseInt`: a non-numeric value (NaN) is not modelled, and the percentage is taken as 0..100.
- A previous thread's slider limit: when a thread with no votes loads, the slider keeps the old limit. The model takes the limit as an input.
- Player colours, HTML escaping of names, the post links in chains, the chart (`showChart`), the player-filter option list, URL parameters (`updateURLParams`) and the column sort (`sortTable` with `localeCompare`): presentation only.
- Timers and the delay input: a pending `setTimeout` is a replay waiting for a `Tick` event. A frame is recorded as the view mode and the votes it applies to, and `Replay.Shown` renders it.
- Object key order: a JavaScript object lists integer-like keys first. The model takes insertion order for `counts`, `running` and `latest`, which holds for player names that are not array indices.
- Player names that are properties of `Object.prototype` (`constructor`, `toString`, `valueOf`, `__proto__` and the like): the model treats every name as a plain key. In the source, `counts[v.to]||0` and `first[v.to]` read the inherited value for such a name (scripts/app.js:288, 308). `voteHist[from].push` throws for a voter named like that (scripts/app.js:314-315), and `latest["__proto__"] = v` drops the voter (scripts/app.js:263).
- `renderVotes` sorts its argument in place. With no limit and the "all" view, that argument is `allVotes` itself, so later exports and replays see the votes in time order. The model sorts a copy and keeps the loaded votes in parse order.
- Network and file I/O: fetching pages, `Promise.all`, `time.sleep`, writing pages and threads.json, and the progress prints. `verify_titles`' opening line is left out of `TitleCheck.Report`.
- `clean_html`'s token-removing regular expressions: a response carries its text after cleaning.
- Scraper.SavePagesChange: Python's `hash` is modelled by the cleaned text itself, so hash collisions are not modelled.
- Scraper.GetThreadLinks: the forum is taken to answer for listing pages 1..n only, so the loop also ends after page n. The real loop runs until a stop condition holds.
- Python's `\d` and `int` accept every Unicode decimal digit, and the model accepts ASCII digits only. `\s` and `str.strip` are modelled with Python's full whitespace set.
- Code-point string order stands in for `sorted` on folder and file names and for the order `os.listdir` returns in `verify_titles`, which the model takes as an input.
- `main` of fetch_all_threads_final_cleaned.py only chains link collection and downloads. `Scraper.Download` models one thread at a time.

## Findings

| source | as written | input that shows it | evidently intended | confidence | as-written member | corrected member |
|---|---|---|---|---|---|---|
| scripts/app.js:391 | Each CSV field is put between double quotes with nothing escaped. | The voter `a","b` voting for `c`, and the voter `a` voting for `b","c`, give the same line. | Double quotes inside a field are written twice, as in RFC 4180 section 2 rule 7, so that the file reads back. | not executed; certain for names containing a double quote | Export.LineAsWrittenAmbiguous | Export.ExportRoundTrip |
| scripts/app.js:169 | `loadSelected` clears `isAnimating` without stopping a pending replay timer. | In live mode, load a thread, then load another while its replay runs. Two replays are then pending, and the old one draws the previous thread's votes. | Loading a thread retires every running replay, so one replay runs at a time. | not executed; follows from the timer code | Replay.ReloadRunsTwoReplays | Replay.GLoadKeepsSound |
| scripts/app.js:177 | `loadSelected` clears `isAnimating` and then awaits the pages before it installs the new votes. | In live mode, load a thread and move the slider before its pages arrive. The move replays the old votes, and the new thread's start is refused because that replay is running. | The arriving votes are replayed: a replay started while the pages were awaited is retired. | not executed; follows from the `await` and the flag | Replay.SlideDuringLoad | Replay.GArriveReplaysNew |
