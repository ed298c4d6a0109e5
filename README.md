# moonplayer core, modelled in Dafny

This project models the parts of moonplayer that decide what happens, independent of
Qt and of the Python interpreter. Plugins are Python scripts that resolve media URLs and
search results for hosting sites. The host application discovers them, routes work to
them by host or by name, and lets them call back into a small bridge module
(`moonplayer.*`).

Modules, one per concern:

- `FetchTask` (fetch_task.dfy): the single-flight fetch task behind `get_content` and
  `post_content`, as a pure state machine. It covers start, finish (redirect, network
  error, success), timeout, the return of the Python callback and the closing of the
  warning box. Every transition yields
  the next state and the ordered list of its effects on the world: references taken and
  dropped on Python objects, requests sent, warning boxes and callback calls. Its lemmas
  prove the reference-count discipline: every reference taken is owed by the task, and
  each is dropped exactly once. They also prove the redirect-chain behaviour.
- `PyApi` (pyapi.dfy):
  - class `GetUrl`: the fields that `start`, `onFinished` and `onTimeOut` rewrite, each
    method proved against the matching `FetchTask` transition;
  - class `Bridge`: the bridge functions (`get_content`, `post_content`, `bind_referer`,
    `force_unseekable`, `warn`, `question`, `res_show`, `show_detail`, `finish_parsing`)
    and the process-wide tables they write.
  - `hasTask()` reads the callback slot and nothing else, which its `reads` frame states.
- `Plugins` (plugins.dfy): the plugin registry. It covers the file-name filter, module
  and plugin names cut from the file name, the load checks of `Plugin::Plugin`, the
  last-write-wins host and name tables, the options word of `Plugin::parse`, and
  `initPlugins`. The registry class keeps the 128-slot array, `n_plugins`, both tables and
  `plugins_msg`. Its invariant says the array holds the constructed plugins in order and
  each table is what registering them one after the other makes.
  - `Plugin.SearchAlbum` requires its plugin to define search_album, which is the
    `Q_ASSERT` of `Plugin::searchAlbum`.
- `StreamGet` (streamget.dfy): the ffmpeg download item. It covers the command line, the
  decoding of `Duration: HH:MM:SS` and of the last `time=HH:MM:SS` at fixed offsets, the
  integer percentage, and the retry without the `aac_adtstoasc` bitstream filter.
- `Utils` (utils.dfy): `secToTime`, the `readXspf` walk over an already parsed XSPF
  tree, and the conversion of cookies into the lines of a Netscape cookies.txt file.
- `QtStrings` (qt_strings.dfy): the QString / QByteArray operations the core relies on,
  and C++'s truncating `/` and `%`.
- `PyObjects` (py_objects.dfy) and `Wrappers` (wrappers.dfy): Python object identities,
  the shapes of the Python values the bridge inspects, and Option / Result.

Inputs from outside become parameters or events:

- the finished network reply and the firing of the timer;
- whether the Python callback raised;
- what ffmpeg wrote to standard error and its exit code;
- the directory listings, and the modules importable with the attributes each defines;
- the parsed XML tree, the raw forms of the cookies, and whether the cookie file opens;
- the user's answer to a question box.

Behaviours of the code that the model keeps as they are written:

- `onFinished` drops the callback's two references only after the callback returns. The
  model keeps each running callback in a suspended frame until `CallbackReturned`.
- On a network error, `onFinished` frees the slot, then shows a modal warning box, and drops
  the two references only once the box is closed. The box runs an event loop, so another
  fetch can start, or another reply can finish, while it is open. The model keeps the
  activation in a suspended frame until `WarningClosed`.
- The body handed to the callback, the Location header published as `final_url`, the
  network error string in the warning, and each host string a plugin declares pass through
  a C string, so each ends at its first NUL character.
- Load order is each directory's name-sorted listing, system first, then user. The
  concatenation is not re-sorted.
- `hosts` must be a tuple. Any other value (a list, say) is fatal, because
  `PyTuple_Size` fails on it.
- Looking up an absent host or name returns null but also stores a null entry in the table
  (`QHash::operator[]`). The model records that entry.
- A timeout aborts the reply, which then runs the ordinary completion path. The status is
  examined before the error, so an aborted reply that carried a 301/302 status would still
  be followed.
- Plugin load failures end the whole process. The model returns them as a `Fatal` outcome.
- The load loop writes the static array with no bound check (see "## Findings"). The
  registry methods model the corrected loop, which refuses a 129th plugin with
  `TooManyPlugins`.

## Model

| member | source | states |
|---|---|---|
| FetchTask.Start | src/pyapi.cpp:40-65 | from a well-formed task with no task held, start leaves a well-formed task holding the callback and the data, waiting on MakeRequest's request, with the timer armed at 10000 ms, final_url set to the url and the suspended frames untouched; its effects are exactly: one reference on the callback, one on the data, then that request sent |
| FetchTask.RequestKinds | src/pyapi.cpp:49-58 | the request goes to the url; it is a POST with the form content type if and only if the post data is non-empty, and has a Referer header if and only if the referer is non-empty |
| FetchTask.MakeRequest | src/pyapi.cpp:49-58 | the request start sends: to the url, a Referer header only for a non-empty referer, POST with the form content type only for non-empty post data (its properties are FetchTask.RequestKinds) |
| FetchTask.RedirectRequest | src/pyapi.cpp:86-87 | the request a redirect sends: a plain GET of the Location, with no Referer and no body |
| FetchTask.NetworkErrorText | src/pyapi.cpp:100-101 | the warning text: "Network Error: ", the status in decimal, a newline, the error string up to its first NUL, a newline |
| FetchTask.HasTask | src/pyapi.h:22 | hasTask(): a callback is held |
| FetchTask.Finish | src/pyapi.cpp:73-112 | onFinished keeps the task well-formed: callback and data held together, a held task has a reply, the timer runs only while a task is held; a redirect publishes and requests the Location up to its first NUL, an error suspends the activation behind the warning box, a success suspends it in the callback, which receives the body up to its first NUL |
| FetchTask.TimeOut | src/pyapi.cpp:67-71 | the timeout, an abort finishing the reply with OperationCanceled, keeps the task well-formed |
| FetchTask.CallbackReturned | src/pyapi.cpp:107-111 | the return of the callback of the innermost suspended activation pops its frame and keeps the task well-formed |
| FetchTask.WarningClosed | src/pyapi.cpp:102-104 | the closing of the warning box of the innermost suspended activation pops its frame and keeps the task well-formed |
| FetchTask.Run | src/pyapi.cpp:73-112 | delivering any sequence of replies keeps the task well-formed |
| FetchTask.IdleBalanced | src/pyapi.cpp:29-38 | a freshly constructed task owes no reference on any object |
| FetchTask.StartBalanced | src/pyapi.cpp:44-47 | start takes exactly one reference each on callback and data, and afterwards every reference taken is owed by the task |
| FetchTask.FinishBalanced | src/pyapi.cpp:73-112 | onFinished keeps references taken equal to references owed, whichever way it ends |
| FetchTask.RedirectBalanced | src/pyapi.cpp:78-90 | a redirect takes and drops no reference: callback and data stay held |
| FetchTask.ErrorBalanced | src/pyapi.cpp:98-105 | a network error drops no reference yet: both move from the slot to the frame waiting on the warning box |
| FetchTask.SuccessBalanced | src/pyapi.cpp:91-94 | success moves both references from the slot to the frame of the running callback; none is dropped yet |
| FetchTask.TimeOutBalanced | src/pyapi.cpp:67-71 | a timeout keeps the reference books as onFinished does |
| FetchTask.CallbackReturnedBalanced | src/pyapi.cpp:107-111 | when the callback returns, its data and callback references are dropped once each, whether or not it raised |
| FetchTask.WarningClosedBalanced | src/pyapi.cpp:102-105 | when the warning box closes, its data and callback references are dropped once each |
| FetchTask.BalancedReleasesAll | src/pyapi.cpp:91-109 | along a balanced trace no object loses more references than it gained, and once the task is idle with no callback running and no warning box open every reference taken has been dropped |
| FetchTask.RedirectChain | src/pyapi.cpp:73-112 | any run of 301/302 hops followed by a final reply: each hop reissues a plain GET to its Location up to the first NUL and publishes that as final_url; the final reply frees the slot, stops the timer and suspends the activation with both references, and then either calls the callback exactly once with the final body up to its first NUL, or opens the warning box without calling it |
| FetchTask.AfterHopsKeepsSlot | src/pyapi.cpp:75-90 | redirect hops keep the callback, the data and the suspended frames, stop the timer and publish the last Location |
| FetchTask.RunOfHops | src/pyapi.cpp:75-90 | running redirect hops then a last reply sends one plain GET per hop, then finishes the last reply on the hopped task |
| FetchTask.RedirectHopHasNoTimeout | src/pyapi.cpp:75-90 | after a redirect the task is still held and its timer is not armed |
| FetchTask.CallbackOnlyOnSuccess | src/pyapi.cpp:91-107 | any non-redirect completion frees the slot; the callback is called if and only if there was no network error |
| FetchTask.BodyEndsAtNul | src/pyapi.cpp:107 | a body "ab", NUL, "cd" reaches the callback as "ab" |
| FetchTask.StartDuringWarning | src/pyapi.cpp:91-104 | while the warning box of a failed fetch is open the slot is free, so get_content can start a new fetch |
| PyApi.GetUrl.constructor | src/pyapi.cpp:29-38 | a new GetUrl has no task, no reply, a stopped timer and final_url "" |
| PyApi.GetUrl.Start | src/pyapi.cpp:40-65 | the new state and the effects appended to the trace are those of FetchTask.Start; the reference balance is preserved |
| PyApi.GetUrl.OnFinished | src/pyapi.cpp:73-112 | the new state and the effects are those of FetchTask.Finish, NUL truncation and suspended frames included; the reference balance is preserved |
| PyApi.GetUrl.OnTimeOut | src/pyapi.cpp:67-71 | the new state and the effects are those of FetchTask.TimeOut |
| PyApi.GetUrl.CallbackReturned | src/pyapi.cpp:107-111 | the new state and the effects are those of FetchTask.CallbackReturned; the reference balance is preserved |
| PyApi.GetUrl.WarningClosed | src/pyapi.cpp:102-104 | the new state and the effects are those of FetchTask.WarningClosed; the reference balance is preserved |
| PyApi.GetUrl.HasTask | src/pyapi.h:22 | hasTask(): a callback is held; its reads frame is the callback slot alone |
| PyApi.Bridge.GetContent | src/pyapi.cpp:114-128 | while a task is held: GetUrlError "Another task is running." and the fetcher unchanged; otherwise None, and a start with the referer (empty if none) and no post data |
| PyApi.Bridge.PostContent | src/pyapi.cpp:130-144 | the same refusal while a task is held; otherwise None, and a start carrying the post data |
| PyApi.Bridge.BindReferer | src/pyapi.cpp:146-153 | the referer table maps the host to the url, overwriting an earlier one |
| PyApi.Bridge.ForceUnseekable | src/pyapi.cpp:155-164 | the host is appended only when absent, so the list stays free of duplicates and a repeated call changes nothing |
| PyApi.Bridge.Warn | src/pyapi.cpp:169-177 | one warning box with the message is shown |
| PyApi.Bridge.Question | src/pyapi.cpp:179-191 | one question box is shown and the user's answer is returned as a bool |
| PyApi.Bridge.ResShow | src/pyapi.cpp:197-227 | a non-list is refused with the view untouched; otherwise the view is the items of the records before the first bad one, and the result is None or that record's error |
| PyApi.Bridge.ShowDetail | src/pyapi.cpp:229-243 | a dict is passed to the detail page and None returned; anything else gives TypeError "The argument is not a dict." and passes nothing |
| PyApi.Bridge.FinishParsing | src/pyapi.cpp:248-262 | the same check, with the parse-result sink |
| PyApi.ResShowOutcome | src/pyapi.cpp:206-224 | the view holds one item per good record, in list order, and stops exactly at the first record missing name, url or pic_url or holding a non-string; the result is None if and only if every record is good |
| PyApi.ResStep | src/pyapi.cpp:208-223 | one record of the loop: a bad record ends the view with its error; a good one adds its item and the loop goes on |
| PyApi.RecordCheck | src/pyapi.cpp:208-223 | the checks of one record: a missing name, url or pic_url first, then a value that is not a string, otherwise the item (name, pic_url, url); its use is stated by PyApi.ResShowOutcome |
| QtStrings.IndexOf | src/streamget.cpp:33 | the result is the first index where the pattern occurs, and None exactly when it occurs nowhere |
| QtStrings.LastIndexOf | src/streamget.cpp:44 | the result is the last index where the pattern occurs, and None exactly when it occurs nowhere |
| QtStrings.SectionFirst | src/plugins.cpp:63 | section(sep, 0, 0): the text before the first separator, exactly s[..IndexOf(s, sep)], which holds no separator; the whole string when there is none |
| QtStrings.SectionRest | src/plugins.cpp:98 | section(sep, 1): the text after the first separator, exactly s[IndexOf(s, sep) + len(sep)..], a suffix of the string; "" when there is none |
| QtStrings.SectionSplit | src/utils.cpp:57-58 | where the separator occurs, first section + separator + rest gives back the string |
| QtStrings.SectionOfJoin | src/utils.cpp:57-58 | cutting a + [c] + b at a character c absent from a gives back a and b |
| QtStrings.NatToString | src/utils.cpp:15-17 | number() writes at least one decimal digit, with no leading zero, and one digit exactly for values below 10 |
| QtStrings.DigitsOfNat | src/utils.cpp:15-17 | reading back the digits number() writes gives the number |
| QtStrings.IntToString | src/utils.cpp:15-17 | QString::number(int): a minus sign and the digits of the magnitude for a negative value (read back by QtStrings.ParseIntOfIntToString) |
| QtStrings.ParseInt | src/streamget.cpp:36-38 | QByteArray::toInt() on the inputs the model reads, two-character fields and number() output: surrounding whitespace skipped, one optional sign, then decimal digits; any other text gives 0 |
| QtStrings.CString | src/pyapi.cpp:107 | the text a C string denotes: a prefix of the bytes with no NUL in it, ending just before the first NUL, or all of them when there is none |
| QtStrings.ParseIntOfIntToString | src/streamget.cpp:36-38 | toInt() reads back what number() writes, negative values included |
| QtStrings.Mid | src/streamget.cpp:36-38 | QByteArray::mid: at most len characters; the slice when it fits; the rest of the string from pos when it runs past the end; empty when pos is past the end |
| QtStrings.TruncModOfMagnitudes | src/utils.cpp:16-17 | the C++ remainder is the remainder of the magnitudes, with the sign of the dividend |
| QtStrings.TruncDivMod | src/utils.cpp:15-17 | the C++ remainder is smaller than the divisor and has the dividend's sign; on non-negative operands / and % agree with Euclidean division |
| StreamGet.RemoveOneAbsent | src/streamget.cpp:91-92 | removing an element that is absent leaves the list unchanged |
| StreamGet.RemoveOneAt | src/streamget.cpp:91-92 | removing the element whose first occurrence is at i takes out exactly that position and keeps the others in order |
| StreamGet.RemoveOneMultiset | src/streamget.cpp:91-92 | removeOne takes one copy of the element out of the multiset of arguments, or none when it is absent |
| StreamGet.RemoveOne | src/streamget.cpp:91-92 | QStringList::removeOne: the first occurrence removed, if any (its properties are the three RemoveOne lemmas) |
| StreamGet.Retried | src/streamget.cpp:91-92 | the retry's arguments: the list without its first -bsf:a, then without its first aac_adtstoasc |
| StreamGet.RetryOfInitialArgs | src/streamget.cpp:89-93 | the retry command line is the constructor's without -bsf:a and aac_adtstoasc, for a url that is neither of them |
| StreamGet.RetryIsIdempotent | src/streamget.cpp:89-93 | a second retry leaves the command line as the first left it |
| StreamGet.ParseTwoDigits | src/streamget.cpp:36-38 | toInt() reads a two-digit field back as its number |
| StreamGet.ClockFields | src/streamget.cpp:36-38 | where HH:MM:SS is printed at pos, the fields cut at pos, pos+3 and pos+6 are its two-digit fields |
| StreamGet.ClockAtText | src/streamget.cpp:36-39 | a printed clock decodes to h*3600 + m*60 + s |
| StreamGet.ClockAt | src/streamget.cpp:36-39 | the clock at pos: the toInt of the two characters at pos, pos+3 and pos+6, weighted 3600, 60 and 1 |
| StreamGet.DecodeDuration | src/streamget.cpp:33-39 | the duration: the clock 10 characters past the first "Duration: ", None without one |
| StreamGet.DecodeTime | src/streamget.cpp:44-50 | the position: the clock 5 characters past the last "time=", None without one |
| StreamGet.Percent | src/streamget.cpp:51 | time * 100 / duration with C++ truncating division (bounds in StreamGet.PercentBounds) |
| StreamGet.FirstMarker | src/streamget.cpp:33 | a marker at p with none before it is the one indexOf finds |
| StreamGet.LastMarker | src/streamget.cpp:44 | a marker at p with none after it is the one lastIndexOf finds |
| StreamGet.DecodeDurationAt | src/streamget.cpp:33-39 | the duration is the clock 10 characters past the first "Duration: " |
| StreamGet.DecodeTimeAt | src/streamget.cpp:44-50 | the position is the clock 5 characters past the last "time=" |
| StreamGet.DecodeDurationOfText | src/streamget.cpp:31-40 | where ffmpeg printed "Duration: HH:MM:SS" first, the decoded duration is that clock in seconds |
| StreamGet.DecodeTimeOfText | src/streamget.cpp:44-50 | where ffmpeg printed "time=HH:MM:SS" last, the decoded position is that clock in seconds |
| StreamGet.FieldBounds | src/streamget.cpp:36-38 | a field of at most two characters reads as a number from -9 to 99 |
| StreamGet.ClockBounds | src/streamget.cpp:47-51 | whatever ffmpeg prints, a decoded clock lies between -9*3661 and 99*3661, so time*100 cannot overflow a 32-bit int |
| StreamGet.PercentIsQuotient | src/streamget.cpp:51 | on a non-negative time and positive duration the C++ quotient is the ordinary one |
| StreamGet.PercentBounds | src/streamget.cpp:51 | a position within the duration gives a percentage from 0 to 100 that grows with the position, and a full duration gives 100 |
| StreamGet.StreamItem.constructor | src/streamget.cpp:8-15 | the argument list is exactly -y -i url -c copy -bsf:a aac_adtstoasc filename, with no duration, process or timer |
| StreamGet.StreamItem.Start | src/streamget.cpp:17-26 | ffmpeg is launched with the argument list, progress 0 is emitted, and the timer ticks every 1000 ms |
| StreamGet.StreamItem.ReadOutput | src/streamget.cpp:28-54 | while the duration is 0 it is decoded from "Duration: " and nothing is emitted; once it is non-zero it never changes and the percentage of the last "time=" is emitted; without the marker nothing changes |
| StreamGet.StreamItem.OnProcFinished | src/streamget.cpp:82-105 | a non-zero exit reporting the aac_adtstoasc filter error relaunches ffmpeg without the filter arguments and emits nothing; any other exit emits finished(code) and drops process and timer |
| Utils.ParsePadded | src/utils.cpp:16-21 | a padded minute or second field holds no ':' and reads back as its number |
| Utils.FieldsOfClock | src/utils.cpp:25 | the three ':'-separated fields of hour:min:sec are hour, min and sec |
| Utils.ClockArithmetic | src/utils.cpp:15-17 | hour*3600 + min*60 + sec == second for every int, with C++ truncating division |
| Utils.SecToTimeReadsBack | src/utils.cpp:12-26 | reading the plain text back field by field gives the count of seconds, negative counts included |
| Utils.PaddedBelowSixty | src/utils.cpp:16-21 | padding a number below 60 gives two digits |
| Utils.SecToTimeOfNat | src/utils.cpp:15-21 | for second >= 0 the hour field is the decimal quotient by 3600, and minutes and seconds are two digits each, below 60 |
| Utils.SecToTimeFormatted | src/utils.cpp:14-25 | the formatted text is the plain text inside the span, and it reads back to the count |
| Utils.SecToTime | src/utils.cpp:12-26 | secToTime: the hours unpadded, minutes and seconds padded to two characters, with C++ truncating / and %, inside the span when use_format is set (its meaning is Utils.SecToTimeReadsBack) |
| Utils.FindElement | src/utils.cpp:36-37 | the index of the first child element with the tag, or None when no child has it |
| Utils.FirstChildElement | src/utils.cpp:36-41 | a result of firstChildElement(tag) is an element with that tag |
| Utils.Tracks | src/utils.cpp:37-44 | the track elements among the children, each a track element, no more than the children |
| Utils.EntriesShape | src/utils.cpp:40-43 | two strings per track: the k-th track's title at 2k and its location at 2k+1 |
| Utils.TracksSkip | src/utils.cpp:44 | children that are not track elements add no track |
| Utils.TracksStep | src/utils.cpp:44 | the next track sibling found is the next track added |
| Utils.ReadXspf | src/utils.cpp:28-46 | the result is the old result followed by each track's title and location; unchanged when the document does not parse |
| Utils.WalkTracks | src/utils.cpp:37-45 | the sibling walk appends the entries of every track child, in document order |
| Utils.EntriesStep | src/utils.cpp:40-44 | the track found next contributes its title, then its location |
| Utils.EntriesDone | src/utils.cpp:38 | once no further track is found, the entries are complete |
| Utils.XspfEntriesCount | src/utils.cpp:33-45 | no entries for a document that does not parse or has no trackList; otherwise exactly two per track |
| Utils.XspfEntries | src/utils.cpp:33-45 | what readXspf appends: title then location of each track of the first trackList of the root |
| Utils.SplitOfJoin | src/utils.cpp:64 | cutting a tab-joined line at the tabs gives back its fields when no field holds a tab |
| Utils.SectionChars | src/utils.cpp:57-63 | a section holds no character the row does not hold |
| Utils.CookieFieldChars | src/utils.cpp:57-63 | name, value, domain and path hold no character the raw cookie does not hold |
| Utils.CookieLineFields | src/utils.cpp:57-64 | for a raw cookie without tabs the line cuts into domain, TRUE, path, FALSE, an empty expiry, name and value; without newlines in the cookie the line has none either |
| Utils.CookieNameValue | src/utils.cpp:57-58 | for name=value;attributes the name is the text before the first '=' and the value runs to the first ';' |
| Utils.CookieMissingAttributes | src/utils.cpp:59-63 | a row that never mentions domain or path gives empty domain and path fields |
| Utils.CookieName | src/utils.cpp:57 | the name: the row before its first '=' |
| Utils.CookieValue | src/utils.cpp:58 | the value: after the first '=', up to the first ';' |
| Utils.CookieDomain | src/utils.cpp:59-61 | the domain: after the first "domain=" up to the next ';' when the row contains "domain", otherwise empty |
| Utils.CookiePath | src/utils.cpp:59-63 | the path: after the first "path=" up to the next ';' when the row contains "path", otherwise empty |
| Utils.CookieRecord | src/utils.cpp:64 | the line body: domain, TRUE, path, FALSE, an empty expiry, name and value, joined by tabs (cut back by Utils.CookieLineFields) |
| Utils.CookieLinesSplit | src/utils.cpp:54-65 | the content cut at newlines is one line body per cookie, in order, then a final empty piece |
| Utils.SplitTerminated | src/utils.cpp:64 | newline-terminated bodies without newlines cut back into the bodies |
| Utils.CookieLinesEmpty | src/utils.cpp:64-67 | the content is empty exactly when there are no cookies |
| Utils.TerminatedStep | src/utils.cpp:54-65 | one pass of the foreach moves the next line from what is left to the content |
| Utils.SaveCookies | src/utils.cpp:49-80 | true exactly when there is a cookie and the file opens; then the header and one line per cookie are written, otherwise nothing |
| Plugins.NamesOfPluginFile | src/plugins.cpp:98 | plugin_n.py with no dot in n gives module plugin_n and plugin name n |
| Plugins.IsPluginFile | src/plugins.cpp:61 | the file loads a plugin: its name starts with plugin_ and ends with .py |
| Plugins.ModuleName | src/plugins.cpp:63 | the module to import: the file name before its first '.' |
| Plugins.PluginName | src/plugins.cpp:98 | the plugin's name: the module name after its first '_' |
| Plugins.ModuleKeepsPrefix | src/plugins.cpp:61-63 | the module of a plugin_ file keeps the plugin_ prefix |
| Plugins.PluginModulesArePlugins | src/plugins.cpp:58-66 | every module imported comes from a plugin file and starts with plugin_ |
| Plugins.PluginModulesAppend | src/plugins.cpp:51-60 | the system listing's plugins load first, then the user listing's, with no re-sorting |
| Plugins.AllPluginFilesLoad | src/plugins.cpp:58-66 | a listing made only of plugin files imports one module per file, in order |
| Plugins.ResourceFilesDoNotLoad | src/plugins.cpp:52-61 | a res_*.py file is listed in the message but loads no plugin |
| Plugins.InventoryOfOne | src/plugins.cpp:44-45 | a listed file appears as one indented line; any other file not at all |
| Plugins.InventoryMessage | src/plugins.cpp:40-56 | plugins_msg is the system heading, the listed system files, the user heading and the listed user files |
| Plugins.AppendListing | src/plugins.cpp:43-46 | the loop over one listing appends each listed file followed by a newline and indentation |
| Plugins.LoadModuleOutcome | src/plugins.cpp:89-141 | loading is fatal exactly when the module, parse or search is missing or hosts is not a tuple; a missing search_album or hosts is tolerated; the plugin holds the module's parse, search and search_album, its name is the module name after the first '_', and its hosts are the tuple's items in order, each string up to its first NUL and each non-string as the empty key |
| Plugins.LoadModule | src/plugins.cpp:89-141 | Plugin::Plugin up to registration: import, then parse, search, search_album and hosts, the first missing one or a non-tuple hosts being fatal (stated by Plugins.LoadModuleOutcome) |
| Plugins.HostEndsAtNul | src/plugins.cpp:132-133 | a host "a", NUL, "b" is registered under the key "a" |
| Plugins.MinimalModuleLoads | src/plugins.cpp:116-137 | a module defining only parse and search loads, with no search_album and no hosts |
| Plugins.LoadAllOutcome | src/plugins.cpp:58-66 | loading succeeds exactly when every module fits in the free slots and loads, and then yields each module's plugin in order |
| Plugins.LoadAll | src/plugins.cpp:58-66 | the load loop with the bound corrected: each module in order into the free slots, the first fatal load or a full array ending it (stated by Plugins.LoadAllOutcome) |
| Plugins.LoadAllRefusesOverflow | src/plugins.cpp:63-64 | more loadable modules than free slots are refused with TooManyPlugins |
| Plugins.SlotsAsWrittenAllLoad | src/plugins.cpp:58-66 | as written, when every module loads the k-th is stored at slot n + k, however many there are |
| Plugins.OverflowExample | src/plugins.cpp:63-64 | a plugin directory holding the 129 distinct files plugin_0.py to plugin_128.py, each module defining parse and search: as written the last plugin goes to index 128 of the 128-slot array, while the bounded load refuses the listing |
| Plugins.NumberedOverflow | src/plugins.cpp:63-64 | for any n > 128 numbered plugin files, all distinct and all loading, the loop as written stores plugin k at index k up to n - 1, while the bounded load refuses the listing |
| Plugins.Options | src/plugins.cpp:145-147 | the SUPER bit is set exactly for quality SUPER, the HIGH bit exactly for HIGH, the download bit exactly for a download, and no other bit |
| Plugins.Plugin.Parse | src/plugins.cpp:143-149 | parse() is called with the url and the options word |
| Plugins.Plugin.Search | src/plugins.cpp:151-154 | search() is called with the keyword and the page |
| Plugins.Plugin.SearchAlbum | src/plugins.cpp:156-160 | search_album() is called with the keyword and the page; its requires, that the plugin defines search_album, is the Q_ASSERT |
| Plugins.RegisterHostsEffect | src/plugins.cpp:130-134 | every host of the tuple maps to the plugin, every other entry is kept, and no key is added but the hosts |
| Plugins.RegisterHosts | src/plugins.cpp:130-134 | the hosts loop: each host in turn mapped to the plugin (stated by Plugins.RegisterHostsEffect) |
| Plugins.HostTable | src/plugins.cpp:130-134 | the host table after the plugins registered their hosts in order (stated by Plugins.HostTableLastWins) |
| Plugins.NameTable | src/plugins.cpp:140 | the name table after the plugins registered their names in order (stated by Plugins.NameTableLastWins) |
| Plugins.LastWithHost | src/plugins.cpp:130-134 | the index of the last plugin declaring the host, or None when none does |
| Plugins.LastWithName | src/plugins.cpp:140 | the index of the last plugin with the name, or None when none has it |
| Plugins.HostTableLastWins | src/plugins.cpp:130-134 | a host maps to the last plugin declaring it; an undeclared host keeps its old entry |
| Plugins.NameTableLastWins | src/plugins.cpp:140 | a name maps to the last plugin with that name; another name keeps its old entry |
| Plugins.Resolve | src/plugins.cpp:75-83 | an absent key resolves to null |
| Plugins.AfterLookup | src/plugins.cpp:75-83 | operator[] leaves the key present with the value it resolved to, and changes no other key |
| Plugins.HostTableNull | src/plugins.cpp:77 | the null entry of a host no plugin declares survives every registration |
| Plugins.NameTableNull | src/plugins.cpp:82 | the null entry of a name no plugin has survives every registration |
| Plugins.HostLookupFindsLast | src/plugins.cpp:75-78 | a host lookup finds the last plugin constructed whose hosts tuple names it, or null |
| Plugins.NameLookupFindsLast | src/plugins.cpp:80-83 | a name lookup finds the last plugin constructed under that name, or null |
| Plugins.LoadFromSkip | src/plugins.cpp:61 | a file that is not a plugin file imports nothing |
| Plugins.LoadFromTake | src/plugins.cpp:61-64 | a plugin file takes the next slot: refused when none is free, otherwise its module loads first |
| Plugins.LoadFromIsLoadAll | src/plugins.cpp:58-66 | the takeFirst loop from position i loads exactly the modules of the plugin files from i on |
| Plugins.Registry.constructor | src/plugins.cpp:72-73 | empty tables, no plugin and an empty message |
| Plugins.Registry.GetPluginByHost | src/plugins.cpp:75-78 | the plugin the table holds for the host, or null; a missing host gets a null entry |
| Plugins.Registry.GetPluginByName | src/plugins.cpp:80-83 | the same for names |
| Plugins.Registry.NewPlugin | src/plugins.cpp:89-141 | fails exactly as LoadModule does and then changes nothing; otherwise registers each host in tuple order, then the name |
| Plugins.Registry.AddPlugin | src/plugins.cpp:63-64 | the corrected store of the load loop (see "## Findings"; the code has no bound check): the next slot is filled exactly when the array has room and the module loads; a full array gives TooManyPlugins |
| Plugins.Registry.Store | src/plugins.cpp:63-64 | the plugin goes into slot n_plugins and n_plugins grows by one |
| Plugins.Registry.FillSlot | src/plugins.cpp:60-65 | one plugin file's module is loaded into the next slot, ahead of the loads that follow |
| Plugins.Registry.TakeFirst | src/plugins.cpp:60-65 | one pass of the loop: a plugin file loads into the next slot, any other file is skipped |
| Plugins.Registry.LoadFiles | src/plugins.cpp:58-66 | the loop ends Pass exactly when LoadAll of the imported modules succeeds, with its error otherwise, and the plugins registered are exactly those it yields |
| Plugins.Registry.InitPlugins | src/plugins.cpp:17-67 | plugins_msg is the inventory message; the system files then the user files are loaded in order into the free slots, with the bound check of the corrected loop (see "## Findings"), and a fatal load ends it with that load's error; the null entries left by earlier lookups are kept, so both tables are determined |

## Left out

- Python C-API mechanics are not modelled: argument parsing (`PyArg_ParseTuple`), `PyObject_AsQVariant`, interpreter and `sys.path` setup, and `PyErr_Print`. Arguments arrive already typed.
- Py_None's reference count is not tracked. `bind_referer` and `force_unseekable` return it without taking a reference.
- The pending Python exception left by `PyString_AsString` on a non-string host is not modelled. Such a host is registered under the empty key, as the null char pointer converts.
- Qt networking and timers are events: the finished reply, and the timer that fires. Wall-clock time is not modelled.
- Location is used verbatim, as in the code. No relative reference is resolved against the request URL (section 7.1.2 of RFC 7231).
- Redirects have no cap, as in the code. `RedirectChain` covers any finite chain.
- After a reply is deleted, `reply` keeps the last request. The dangling pointer is not modelled further.
- Dialogs and view sinks are recorded as output calls: `QMessageBox`, `res_library`, `parser_webcatch`.
- The conversion of a dict to a `QVariantHash` is not modelled. The dict's entries are passed on as they are.
- Plugin: a plugin is a value. `Plugin*` pointer identity and the `module` handle it owns are not modelled.
- When calling a plugin function, `call_py_func_vsi` is a foreign call. Parse, Search and SearchAlbum yield the call they would make.
- The OPT_QL_HIGH, OPT_QL_SUPER and OPT_DOWNLOAD values are taken as 1, 2 and 4. The header that defines them, plugins.h, is not part of this model. The proofs rely only on them being distinct single bits.
- The Windows branches of `initPlugins` are not modelled. The non-Windows path is modelled.
- Directory reading (`QDir::entryList`) is not modelled. The listings are inputs, already sorted as QDir returns them.
- The `QProcess` lifecycle of the stream download is not modelled: `stop`, the destructor, `pause`'s warning, kill and waitForFinished. These are external process control.
- `qDebug` of ffmpeg's error output is not modelled.
- RetryOfInitialArgs and RetryIsIdempotent: they are stated for urls, and for the idempotence also file names, that are not themselves `-bsf:a` or `aac_adtstoasc`. With such an argument the first `removeOne` could remove the url instead.
- The XML parser (`QDomDocument::setContent`) is not modelled. The document is given as a parsed element tree, or None when it does not parse.
- The cookie jar lookup is not modelled. Cookies are given as their raw forms.
- Writing the cookie file is not modelled. Whether the file opens is an input, and the written text is the result.
- UTF-8 encoding is not modelled; strings are sequences of characters.
- FetchTask.Finish: the redirect request's URL is taken to end at the Location's first NUL, as Qt 5's `QString::fromUtf8(QByteArray)` does. The Qt version is not part of this model.
- QtStrings.ParseInt: does not give 0 for a value outside the 32-bit int range, and does not stop at an embedded NUL, as toInt() does. Neither occurs on a two-character field or on what number() writes for an int.
- Utils.CookieDomain, Utils.CookiePath: as in the code, the row is tested for "domain" or "path" anywhere, not for the attribute. A row that mentions the word without the attribute gives an empty field, like a row without it.

## Findings

| source | as written | input that shows it | evidently intended | confidence | as-written member | corrected member |
|---|---|---|---|---|---|---|
| src/plugins.cpp:63-64 | the load loop stores `array[n_plugins]` (the array is declared at line 29) and increments `n_plugins` with no comparison against the 128 slots of the static array | 129 distinct plugin files that load, for example a plugin directory holding `plugin_0.py` to `plugin_128.py`, each module defining parse and search: the 129th plugin is written to index 128, past the end of the array | stop with a fatal error once the array is full | not executed | Plugins.OverflowExample | Plugins.LoadAllRefusesOverflow |
