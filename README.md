# wsl2mydns in Dafny

A verified model of the core of wsl2mydns, a command-line client that registers
a WSL2 machine's IPv4 address with the MyDNS dynamic-DNS console. The console
has no API: everything goes through server-rendered HTML forms on one endpoint,
selected by a `MENU` parameter, within a cookie session.

The model covers:

- **Reading pages** (`DomainPage`): `getParams` turns the domain page (MENU=300)
  into a `DomainInfo` record, and the parse loop of `getChildInfo` turns the
  child-account page (MENU=200) into a `ChildInfo` record. Each repeating group
  `DNSINFO[field][i]` / `CHILDINFO[field][i]` is read by probing i = 0, 1, 2, …
  until the group's primary INPUT is absent. A missing secondary element in a
  present row, a missing domain-name INPUT or a missing `FONT.userinfo12`
  element makes the whole parse fail.
- **Writing the domain record** (`DomainForm`): the CHECK form that
  `setSetting` builds, which resends only the rows before the first empty mx and
  the first empty hostname. A round-trip theorem reads that form back.
- **The session** (`Reader.MyDnsReader`): a class with a log of every request
  sent. The site's replies are a fixed function of the conversation so far, and
  None stands for a rejected request. On top of it sit the login
  (`getSession`), the five-attempt page fetch (`Retry`), `getChildInfo`,
  `getDomainInfo`, `getInfo`, and the two-phase CHECK/CHANGE commit of
  `setSetting` and `setDirectIp`.
- **Choosing the address** (`Interfaces`): `getIpAddress` picks the first
  non-internal IPv4 address of the named network device.

Modules: `Wrappers` (Option), `Strings` (decimal rendering of indices,
`String.prototype.indexOf`), `Forms` (documents, indexed names, the
scan-until-absent contract), `DomainPage`, `DomainForm`, `Retry`, `Reader`,
`Interfaces`.

How the model represents the DOM and the transport:

- A parsed page is a finite map from (tag, name) to the element's `value`.
  `querySelector` is a lookup in that map.
- The `FONT.userinfo12` element and its regular-expression match become
  `Page.userInfo`. `None` means the element is missing. `NoMatch` means the
  pattern did not match. `Matched` carries the three captures.
- The HTML parser is a constant of the reader class (`parse`). The server is
  another constant (`server`), which gives the reply to the last request of a
  conversation.

Mail exchangers are kept as the two parallel lists `mx` and `prio` of
`MyDNSDomainInfo`, as getParams fills them (src/MyDNSReader.ts:14-15, 218-222).

## Model

| member | source | states |
|---|---|---|
| Strings.NatToString | src/MyDNSReader.ts:215 | the decimal rendering of an index is non-empty, and has one digit exactly for indices below 10 |
| Strings.NatToStringInjective | src/MyDNSReader.ts:215 | distinct indices render to distinct texts, so distinct rows have distinct element names |
| Strings.IndexOf | src/MyDNSReader.ts:77 | `indexOf` returns the first position where the needle occurs, and -1 exactly when it occurs nowhere |
| Strings.Contains | src/MyDNSReader.ts:280 | the `indexOf(..) >= 0` test: the needle occurs somewhere in the text |
| Strings.ContainsIff | src/MyDNSReader.ts:280 | `indexOf(..) >= 0` holds exactly when the needle occurs somewhere in the body |
| Forms.IndexedName | src/MyDNSReader.ts:215 | the element name `GROUP[field][${i}]` of row i of a repeating group |
| Forms.IndexedNameInjective | src/MyDNSReader.ts:214-216 | equal indexed names `GROUP[field][i]` within one field have equal indices |
| Forms.Query | src/MyDNSReader.ts:214-217 | a selector lookup yields a value exactly when the element is present, and that value is the element's |
| Forms.IncompleteWitness | src/MyDNSReader.ts:219-222 | a column is incomplete below n exactly when some index below n is absent |
| Forms.ScanLength | src/MyDNSReader.ts:213-217 | the probing loop stops: on a finite page, every index below the stopping point is present and the stopping index is absent |
| Forms.ScanStopsAtFirstGap | src/MyDNSReader.ts:213-217 | the loop stops at the first absent primary index and at no other |
| Forms.ColumnOf | src/MyDNSReader.ts:218 | the column read has one entry per row, row j holding the value of the element with index j |
| Forms.ColumnStep | src/MyDNSReader.ts:217-218 | one more present index extends the column read so far by that index's value |
| Forms.ColumnShown | src/MyDNSReader.ts:218 | a page that shows col[j] at every index j below the length of col yields col as the column |
| Forms.Rendered | src/MyDNSReader.ts:277 | the urlencoded text of a form value: a string as itself, a number in decimal, and undefined as no field at all |
| Forms.EchoPage | src/MyDNSReader.ts:265-276 | the page that echoes a submitted form shows exactly the submitted fields whose values are not undefined, with their rendered text |
| DomainPage.AddressesOf | src/MyDNSReader.ts:196-207 | no match leaves ipV4, ipV6 and update unset; a match sets ipV4 and ipV6; update is set exactly when the notify capture is non-empty |
| DomainPage.MailSpec | src/MyDNSReader.ts:213-223 | the mail rows read have equal-length mx and prio lists, whose length is the first absent mx index |
| DomainPage.HostSpec | src/MyDNSReader.ts:224-242 | the host rows read have four equal-length lists, whose length is the first absent hostname index |
| DomainPage.DomainSpec | src/MyDNSReader.ts:179-247 | a parsed record has parallel lists, and each group's length is its first absent primary index |
| DomainPage.ReadMailRows | src/MyDNSReader.ts:213-223 | the mx loop yields exactly the mail rows the page holds, or fails when a present row lacks its prio |
| DomainPage.ReadHostRow | src/MyDNSReader.ts:230-241 | the three secondary reads of a host row succeed exactly when all three elements are present, and yield their values |
| DomainPage.HostRowBroken | src/MyDNSReader.ts:230-246 | a present host row lacking type, content or delegateid makes getParams return null |
| DomainPage.ReadHostRows | src/MyDNSReader.ts:224-242 | the host loop yields exactly the host rows the page holds, or fails when a present row lacks a secondary |
| DomainPage.GetParams | src/MyDNSReader.ts:179-247 | getParams returns exactly the record the page specifies, or null |
| DomainPage.ChildSpec | src/MyDNSReader.ts:126-149 | a parsed child record has five parallel lists, whose length is the first absent masterid index |
| DomainPage.ReadChildRow | src/MyDNSReader.ts:132-147 | the four secondary reads of a child row succeed exactly when all four INPUTs are present, and yield their values |
| DomainPage.ChildRowBroken | src/MyDNSReader.ts:132-147 | a present child row lacking one of its four other INPUTs makes the parse throw |
| DomainPage.ParseChildInfo | src/MyDNSReader.ts:126-149 | the child loop yields exactly the child record the page specifies, and fails where the source throws |
| DomainPage.DomainParseFailsIff | src/MyDNSReader.ts:194-246 | getParams is null exactly when the user-info element is missing, the domain-name INPUT is missing, or a present row lacks a secondary element |
| DomainPage.NoMatchStillParses | src/MyDNSReader.ts:196-207 | a non-matching user-info text does not make the parse fail; it only leaves the three informational fields unset |
| DomainPage.ChildParseFailsIff | src/MyDNSReader.ts:126-147 | the child parse fails exactly when a present row lacks one of its four other INPUTs |
| DomainPage.GapTruncates | src/MyDNSReader.ts:213-242 | with rows 0..n-1 present and row n absent, a successful parse has exactly n rows, whatever follows the gap |
| DomainForm.PrimaryCount | src/MyDNSReader.ts:267 | the `params.mx[i]` loop condition holds for every index before the count and fails at the count |
| DomainForm.At | src/MyDNSReader.ts:269 | `params.x[i]` is the list's entry below its length and undefined past it |
| DomainForm.Truthy | src/MyDNSReader.ts:267 | the loop condition's truthiness: a non-empty string, a non-zero number, never undefined |
| DomainForm.CheckHeader | src/MyDNSReader.ts:260-266 | the fixed part of the CHECK form: MENU=300, JOB=CHECK and `DNSINFO[domainname]` |
| DomainForm.MailFields | src/MyDNSReader.ts:267-270 | the form after the mx loop has run n times: each pass adds `DNSINFO[mx][i]` and `DNSINFO[prio][i]` |
| DomainForm.HostFields | src/MyDNSReader.ts:271-276 | the form after the hostname loop has run n times: each pass adds the four `DNSINFO[..][i]` fields |
| DomainForm.CheckForm | src/MyDNSReader.ts:260-276 | the CHECK form is the header, then the mx loop's rows, then the hostname loop's rows |
| DomainForm.BuildCheckForm | src/MyDNSReader.ts:256-276 | the two form-building loops produce exactly the CHECK form of the record |
| DomainForm.AddMailRows | src/MyDNSReader.ts:267-270 | the mx loop adds the rows before the first falsy mx, as the recursive account of the loop says |
| DomainForm.AddHostRows | src/MyDNSReader.ts:271-276 | the hostname loop adds the rows before the first falsy hostname, as the recursive account of the loop says |
| DomainForm.DnsNamesDiffer | src/MyDNSReader.ts:268-275 | two field names of the form coincide only for the same field and index |
| DomainForm.DnsNameNotHeader | src/MyDNSReader.ts:261-266 | no row field name is MENU, JOB or `DNSINFO[domainname]` |
| DomainForm.MailFieldsKeys | src/MyDNSReader.ts:267-270 | the mx loop adds exactly the mx and prio names of the rows it visits |
| DomainForm.MailFieldsValues | src/MyDNSReader.ts:267-270 | the mx loop sends row j's mx and prio under index j and keeps the earlier fields |
| DomainForm.MailRowKept | src/MyDNSReader.ts:268-269 | adding a later mx/prio pair keeps an earlier row intact |
| DomainForm.HostFieldsKeys | src/MyDNSReader.ts:271-276 | the host loop adds exactly the four names of the rows it visits |
| DomainForm.HostFieldsValues | src/MyDNSReader.ts:271-276 | the host loop sends row j's four values under index j and keeps the earlier fields |
| DomainForm.HostStep | src/MyDNSReader.ts:272-275 | one pass of the hostname loop keeps the fields before it and every earlier row, and adds its own row |
| DomainForm.HostNamesDistinct | src/MyDNSReader.ts:272-275 | the four names a pass of the hostname loop writes are pairwise distinct |
| DomainForm.HostRowKept | src/MyDNSReader.ts:272-275 | adding a later host row keeps an earlier row intact |
| DomainForm.MailNamesNotInHeader | src/MyDNSReader.ts:260-268 | no mail field name collides with the form's header fields |
| DomainForm.HostNamesNotInMail | src/MyDNSReader.ts:268-275 | no host field name collides with the header or the mail fields |
| DomainForm.HostNameNotInMail | src/MyDNSReader.ts:266-272 | a host field name is neither a header key nor a mail key |
| DomainForm.CheckFormKeys | src/MyDNSReader.ts:260-276 | the CHECK form holds exactly MENU, JOB, the domain name, and the row names before the first falsy mx and the first falsy hostname |
| DomainForm.CheckFormValues | src/MyDNSReader.ts:260-276 | the CHECK form carries MENU=300, JOB=CHECK, the domain name, and row j's values at index j |
| DomainForm.CheckFormKeepsHeader | src/MyDNSReader.ts:260-266 | MENU, JOB and the domain name survive both loops unchanged |
| DomainForm.CheckFormKeepsMail | src/MyDNSReader.ts:267-276 | the mail rows survive the hostname loop unchanged |
| DomainForm.CheckFormRows | src/MyDNSReader.ts:267-276 | row i of a group is sent exactly when i is below the group's first falsy primary |
| DomainForm.EmptyMxDropsRest | src/MyDNSReader.ts:267-270 | an empty mx drops its own row and every later row |
| DomainForm.CheckFormIgnoresAddresses | src/MyDNSReader.ts:265-276 | ipV4, ipV6 and update never affect the CHECK form |
| DomainForm.MailRoundTrip | src/MyDNSReader.ts:267-270 | when no mx is empty, reading the echoed CHECK form back yields the mx and prio lists unchanged |
| DomainForm.HostRowEcho | src/MyDNSReader.ts:271-276 | when no hostname is empty, the echoed page shows every host row's four values |
| DomainForm.HostGapShown | src/MyDNSReader.ts:271 | the echoed page has no hostname row just past the last one |
| DomainForm.HostColumnsShown | src/MyDNSReader.ts:224-242 | a page showing every host row yields the four host lists as its columns |
| DomainForm.HostRoundTrip | src/MyDNSReader.ts:271-276 | when no hostname is empty, reading the echoed CHECK form back yields the four host lists unchanged |
| DomainForm.RoundTrip | src/MyDNSReader.ts:255-276 | when no mx and no hostname is empty, getParams on the echoed CHECK form returns the record, with the informational fields taken from the page |
| DomainForm.EchoScanEnds | src/MyDNSReader.ts:267-276 | the echoed form shows the primary INPUT of row j exactly when j is below its group's first falsy primary, so each scan stops there |
| DomainForm.EchoMailColumn | src/MyDNSReader.ts:267-268 | the echoed mx column below the first empty mx is the record's mx list up to that point |
| DomainForm.EchoHostColumn | src/MyDNSReader.ts:271-272 | the echoed hostname column below the first empty hostname is the record's hostname list up to that point |
| DomainForm.RoundTripLosesMail | src/MyDNSReader.ts:267-270 | an empty mx at index i makes the read-back record hold at most i mail rows, and its mx list is exactly the record's mx list before the first empty mx |
| DomainForm.RoundTripLosesHosts | src/MyDNSReader.ts:271-276 | an empty hostname at index i makes the read-back record hold at most i host rows, and its hostname list is exactly the record's hostname list before the first empty hostname |
| Retry.FirstSuccess | src/MyDNSReader.ts:113-114 | every attempt before the first success failed, and the attempt at it succeeded |
| Retry.AttemptCount | src/MyDNSReader.ts:113-114 | between one and five requests go out; all but the last failed, and fewer than five means the last succeeded |
| Retry.FetchResult | src/MyDNSReader.ts:112-115 | the loop ends with null exactly when all five attempts fail, and otherwise with the body of the last attempt |
| Retry.StopsAtFirstBody | src/MyDNSReader.ts:113-114 | when attempt k is the first to yield a body, even an empty one, exactly k+1 requests go out and the loop ends with that body |
| Retry.AllFailuresExhaust | src/MyDNSReader.ts:112-115 | when every attempt fails, five requests go out and the result is null |
| Reader.CarriesIff | src/MyDNSReader.ts:77 | a reply passes the `value && value.indexOf(marker) >= 0` test exactly when it is a body in which the marker occurs |
| Reader.Carries | src/MyDNSReader.ts:278-280 | `value && value.indexOf(marker) >= 0`: the reply is a non-empty body in which the marker occurs |
| Reader.LoginForm | src/MyDNSReader.ts:67-71 | the login POST carries MENU=100, masterid and masterpwd and nothing else |
| Reader.ChangeForm | src/MyDNSReader.ts:286-289 | the second phase carries only MENU and JOB=CHANGE, no record data |
| Reader.DirectIpForm | src/MyDNSReader.ts:301-308 | the setDirectIp CHECK form: MENU=400, JOB=CHECK, the IPv4 address in mode 1 and the zero IPv6 address in mode 0 |
| Reader.DirectIpFormFixed | src/MyDNSReader.ts:297-309 | the setDirectIp CHECK form is fixed apart from the IPv4 address, and different addresses give different forms |
| Reader.CombineInfo | src/MyDNSReader.ts:95-97 | getInfo yields a record exactly when both the child and the domain results are records |
| Reader.MyDnsReader.constructor | src/MyDNSReader.ts:49-50 | a new reader has sent nothing |
| Reader.MyDnsReader.Send | src/MyDNSReader.ts:277 | a request is appended to the log and answered from the conversation so far |
| Reader.MyDnsReader.TwoPhase | src/MyDNSReader.ts:277-294 | after the CHECK POST, the CHANGE POST follows exactly when the reply carries the hidden JOB=CHANGE input, and the result is true exactly when the CHANGE reply carries the acceptance text |
| Reader.MyDnsReader.ChildFrom | src/MyDNSReader.ts:115-149 | what getChildInfo makes of the fetched body: null when nothing was fetched, a thrown error on a broken row, otherwise the page's child record |
| Reader.MyDnsReader.DomainFrom | src/MyDNSReader.ts:167-168 | what getDomainInfo makes of the fetched body: null when nothing was fetched, otherwise getParams of the parsed page |
| Reader.MyDnsReader.Fetch | src/MyDNSReader.ts:112-115 | the retry loop sends the GET as many times as the attempt count and ends with the fetch result |
| Reader.MyDnsReader.GetSession | src/MyDNSReader.ts:59-81 | login sends exactly one POST with MENU=100 and the credentials, and succeeds exactly when the reply is a body holding `./?MENU=090` |
| Reader.MyDnsReader.GetChildInfo | src/MyDNSReader.ts:105-150 | null when every fetch attempt fails, a thrown error when the page has a broken row, otherwise the page's child record |
| Reader.MyDnsReader.GetDomainInfo | src/MyDNSReader.ts:157-169 | null when every fetch attempt fails, otherwise what getParams makes of the page |
| Reader.MyDnsReader.GetInfo | src/MyDNSReader.ts:89-98 | both pages are fetched, and the result is null unless both yield a record |
| Reader.MyDnsReader.Commit | src/MyDNSReader.ts:277-294 | the CHECK form goes out; the bare CHANGE form follows exactly when the CHECK reply offers it; the result is true exactly when the CHANGE reply carries the acceptance text |
| Reader.MyDnsReader.SetSetting | src/MyDNSReader.ts:255-295 | setSetting commits the record's CHECK form with MENU=300 and "We accepted your Domain" |
| Reader.MyDnsReader.SetDirectIp | src/MyDNSReader.ts:296-328 | setDirectIp commits the fixed MENU=400 form with the address, and "We accepted your IP address registration" |
| Reader.MyDnsReader.TwoPhaseShape | src/MyDNSReader.ts:277-294 | a commit sends one or two requests; the second is the bare CHANGE form and goes out only after an offer; true implies an offer and an acceptance; a rejected CHECK or a rejected CHANGE gives false |
| Interfaces.FirstQualifying | src/index.ts:24-29 | none exactly when no entry is external IPv4; otherwise the address of the first such entry |
| Interfaces.Qualifies | src/index.ts:25-26 | an entry may be registered exactly when it is not internal and its family is IPv4 |
| Interfaces.Lookup | src/index.ts:17-32 | null exactly when no device with the name has an external IPv4 entry |
| Interfaces.GetIpAddress | src/index.ts:17-32 | the nested loops return the first external IPv4 address among the devices with the name, in order |
| Interfaces.LookupSound | src/index.ts:20-29 | the address returned is that of an external IPv4 entry of a device with the name |
| Interfaces.AbsentDevice | src/index.ts:20-22 | no device with the name gives null |
| Interfaces.LookupNamedDevice | src/index.ts:20-29 | with unique device names, only the named device's entries matter, and the result is its first external IPv4 address |

## Left out

- HTTP transport, the cookie jar and the URL: a request is a `Request` value in the log; a rejected request or error status is a `None` reply.
- The HTML parser (JSDOM) is the `parse` constant; a page is a map from (tag, name) to value, so duplicate names and attribute-case matching are not modelled.
- The regular expression on the user-info text: the match result is the input `UserInfo`.
- `new Date(...)` for `update` and `iplastdate`: these are kept as the raw text.
- DomainPage.DomainSpec: `parseInt` of a priority is not modelled, although the code parses each priority to a number; `prio` holds the SELECT's raw text, so NaN for non-numeric text is not represented.
- DomainForm.CheckForm: the CHECK form resends the raw priority text, where the code resends `String(parseInt(text))`: "010" would go back as "10" and non-numeric text as "NaN".
- DomainForm.RoundTrip: the round trip is stated on the raw priority text, so it does not capture the normalisation of priorities that `parseInt` performs.
- Reader.MyDnsReader.GetInfo: `Promise.all` runs the two fetches concurrently; the model sends the child-page requests first, then the domain-page requests. The results do not depend on the interleaving as long as the server's replies do not.
- Reader.MyDnsReader.SetSetting: the urlencoding of the form (qs) is not modelled; a field whose value is undefined (a read past the end of prio, type, content or delegateid) is assumed to be omitted, which is how `Forms.Rendered` treats it.
- Form values are `Str`, `Num` or `Undefined`; the distinction between a JavaScript number and its decimal text is kept only in `Forms.Rendered`.
- The command-line part of index.ts (lines 34-48 and `setIpAddress`), the `os.networkInterfaces()` call (its result is the `devices` parameter) and console output.
