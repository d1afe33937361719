# mtt-api-cms decision rules in Dafny

mtt-api-cms is the admin dashboard and API of a content site: homepage
sliders, devotional ("dakwah") posts, image galleries, proposal submissions,
and e-mail one-time passwords. Most of it is user interface or a thin call
into the database and storage service. This project models the decision
rules inside the route handlers and schemas as pure Dafny functions over
explicit inputs, and proves what those rules promise:

- **Slider visibility on create** (`HomeSliders`): the first visible slider is
  forced on and a sixth is forced off. Across any create-only sequence
  (no updates or visibility toggles in between) in which each create sees
  the exact visible count, starting from at most 5 visible, the
  number stays at most 5. It is at least 1 once a create succeeds or when
  one slider was already visible.
- **OTP lifecycle** (`Otp`):
  - An issued code is six digits and expires two minutes later.
  - Verification picks the newest unverified matching record, accepts it up
    to and including its expiry instant, and consumes it. When exactly one
    record matches the code, a replay then fails.
- **Route guard** (`Middleware`): redirect to the login page, redirect to the
  news dashboard, or let the request through. Also models which paths the
  guard runs on at all.
- **Breadcrumbs** (`Breadcrumb`): the pathname is split on `/` and empty
  segments are dropped. Each crumb links to the path up to its segment, and
  its name is the segment capitalised.
- **Validators** (`Zod`, `DakwahSchema`, `HomeSliderSchema`, `Proposal`): zod's
  type-then-checks order and UTF-16 lengths. Also the plain-text and
  button-link rules and the E.164-style phone pattern.
- **Offset pagination** (`Paging`, used by the proposal and both gallery
  listings): page defaults and `parseInt`, including the missing radix in
  the gallery routes. Consecutive pages are contiguous and disjoint, and
  reading pages 1..k yields a prefix of the table.
- **Proposals** (`Proposal`):
  - Submission is validated, then refused with 409 when exactly one proposal
    with that e-mail exists.
  - Marking as read is idempotent.
- **Gallery uploads** (`GaleryDakwah`): the stored name is
  `dakwah-<uuid>.<ext>` and keeps the upload's extension. Every gallery row is
  backed by its storage object.

The database, storage, mail, JWT verification, `uuid`, `Math.random`, the
clock, zod's URL and e-mail recognisers, and `decodeURIComponent` are not
modelled as code. Each one is a parameter:

- Failures are an `Option<string>` message or a `bool`.
- Recognisers are `string -> bool`.
- The clock is milliseconds as `int`.
- The random draw is a `real` in [0, 1).

Tables are sequences of rows in the order the database returns them.

The only capacity rule in the modelled routes is the one applied when a
slider is created. The application has three more, in routes outside this
model (listed under "## Left out"): the slider visibility toggle, the slider
update, and the daily-dakwah highlight. A `null` visible count is not treated
as zero: it takes the pass-through branch.

## Model

| member | source | states |
|---|---|---|
| JsValues.Coalesce | app/api/home-sliders/route.ts:84 | `??` keeps every value except `undefined` and `null`, which take the fallback |
| JsValues.Utf16Length | app/api/proposal/route.ts:6 | zod's string length counts UTF-16 code units. It lies between the character count and twice it, and equals the character count when every character is in the Basic Multilingual Plane |
| JsValues.Utf16LengthAppend | app/api/proposal/route.ts:6 | code-unit length adds up over concatenation |
| JsValues.DecimalString | app/api/send-otp/route.ts:6 | `toString` of a natural number is a non-empty run of decimal digits with no leading zero, and starts with `0` exactly for 0 |
| JsValues.DecimalStringLength | app/api/send-otp/route.ts:6 | a number with k digits prints as exactly k characters |
| JsValues.ParseIntOfEmpty | app/api/proposal/route.ts:21-22 | `parseInt` of the empty text is `NaN` |
| JsValues.ParseIntOfDecimal | app/api/proposal/route.ts:21-22 | `parseInt` reads any printed natural number back exactly, with radix 10 or without a radix |
| JsValues.ToText | app/api/proposal/route.ts:134 | the id reaches the query as text: a string is itself, a non-negative number its decimal numeral |
| JsValues.Truthy | app/api/home-sliders/route.ts:47 | a truthy value is neither `undefined` nor `null`, a string is truthy exactly when non-empty, and an object always is |
| JsValues.ParseInt | app/api/proposal/route.ts:21-22 | `parseInt` gives a number only when something follows the leading whitespace, and a negative number only after a leading `-` |
| HomeSliders.NewVisible | app/api/home-sliders/route.ts:66-73 | a count of exactly 0 forces visible and a count of 5 or more forces hidden. Otherwise, including a `null` count, a boolean request is kept and anything else means visible |
| HomeSliders.RowFor | app/api/home-sliders/route.ts:75-87 | the inserted row carries the decided `visible` and `featured ?? false` |
| HomeSliders.Post | app/api/home-sliders/route.ts:47-99 | a falsy `image` or `title` gives 400 and no insert. A count or insert failure gives 500 and no insert. Otherwise exactly one row is appended. It carries all seven body fields, `featured` defaulted to false, and the `visible` that NewVisible decides from the count and the requested flag. The response reports that `visible` |
| HomeSliders.PostKeepsVisibleBounds | app/api/home-sliders/route.ts:66-73 | with an exact count of at most 5, one create leaves at most 5 visible sliders, never fewer than before, and at least one after a successful insert |
| HomeSliders.RunKeepsVisibleBounds | app/api/home-sliders/route.ts:54-96 | over any create-only sequence of sequential creates, with no update or toggle in between, the visible count stays at most 5, and is at least 1 once any slider was created or one was visible |
| Otp.OtpNumber | app/api/send-otp/route.ts:5-7 | `floor(100000 + draw * 900000)` lies in [100000, 999999] for every draw in [0, 1) |
| Otp.GenerateOtp | app/api/send-otp/route.ts:5-7 | the code is exactly six decimal digits, does not start with 0, and reads back as the drawn number |
| Otp.Send | app/api/send-otp/route.ts:16-56 | missing `email` or `name` gives 400 with nothing stored or mailed. An insert failure gives 500 and no mail. Otherwise one unverified record with the code and `expires_at = now + 120000` is appended and then mailed, and a mail failure gives 500 but keeps the record |
| Otp.LatestCandidate | app/api/verify-otp/route.ts:22-30 | the pick is an unverified record with the same e-mail and code, none has a later `created_at`, and there is no pick exactly when no such record exists |
| Otp.Verify | app/api/verify-otp/route.ts:11-53 | missing fields, no candidate or a failed lookup give 400. An expired pick (`expires_at < now`) gives 400 and stays unverified. Otherwise the response is 200 and only the picked record becomes verified; an unchecked update failure changes nothing but still answers 200 |
| Otp.VerifyConsumesCandidate | app/api/verify-otp/route.ts:47 | a successful verification removes exactly the picked record from the candidates and changes no other record |
| Otp.ReplayRejected | app/api/verify-otp/route.ts:22-47 | when a code has one matching record, verifying it again after a success fails as invalid, at any later time |
| Otp.NewestCandidateIsPicked | app/api/verify-otp/route.ts:28-30 | when every earlier record was created strictly before it, a matching record just inserted is the one the query picks |
| Otp.VerifyPicked | app/api/verify-otp/route.ts:39-47 | the picked record is accepted up to and including its expiry instant, and then marked verified; after it, it is rejected as expired |
| Otp.IssueThenVerify | app/api/verify-otp/route.ts:39-47 | when every earlier record was created strictly before the send, verifying the code just issued succeeds exactly when at most two minutes have passed, and then marks that record verified; later it fails as expired |
| Middleware.Guard | middleware.ts:10-32 | a verifying token on `/login` goes to `/dashboard/news`. A protected path without a verifying token (missing, empty or failing) goes to `/login`. Everything else proceeds. Each decision is stated as an if-and-only-if |
| Middleware.IsProtected | middleware.ts:10 | `/`, `/dashboard` and every path below `/dashboard/` are protected, and `/login` is not |
| Middleware.Handle | middleware.ts:35-37 | paths outside the matcher (`/`, `/login`, `/dashboard/:path*`) proceed without the guard |
| Middleware.Matched | middleware.ts:35-37 | the matcher runs the guard only on `/login` and protected paths. The only protected paths it skips continue `/dashboard` with a character other than `/` |
| Middleware.MatchedProtection | middleware.ts:10-37 | a request is sent to the login page exactly when it is for `/`, `/dashboard` or a path below it, and carries no verifying token |
| Middleware.PrefixIsProtected | middleware.ts:10 | the guard's prefix test counts `/dashboardx` as protected, but the matcher never runs the guard on it |
| Breadcrumb.Split | components/BreadCrumb/BreadCrumb.tsx:8 | `split('/')` yields at least one piece, and no piece contains a slash |
| Breadcrumb.JoinSplit | components/BreadCrumb/BreadCrumb.tsx:8 | joining the pieces with `/` gives back the pathname |
| Breadcrumb.NonEmpty | components/BreadCrumb/BreadCrumb.tsx:8 | the filter keeps only non-empty pieces, each taken from the input, and every non-empty piece of the input is kept |
| Breadcrumb.NonEmptyAppend | components/BreadCrumb/BreadCrumb.tsx:8 | filtering a concatenation is filtering each part in turn, so the kept pieces stay in input order |
| Breadcrumb.NonEmptySingle | components/BreadCrumb/BreadCrumb.tsx:8 | a single piece is kept exactly when it is non-empty; with NonEmptyAppend this says every non-empty piece is kept once, in order |
| Breadcrumb.Segments | components/BreadCrumb/BreadCrumb.tsx:8 | every segment is non-empty and slash-free |
| Breadcrumb.SegmentsSpellPath | components/BreadCrumb/BreadCrumb.tsx:8 | dropping empty pieces loses only slashes: the segments spell the pathname with leading, doubled and trailing slashes removed |
| Breadcrumb.SegmentsAppend | components/BreadCrumb/BreadCrumb.tsx:8 | a non-empty slash-free piece after a separator adds exactly one segment |
| Breadcrumb.SegmentsOfPath | components/BreadCrumb/BreadCrumb.tsx:8 | writing segments as `/a/b/c` and segmenting again gives the same segments |
| Breadcrumb.Capitalize | components/BreadCrumb/BreadCrumb.tsx:14 | the first character is uppercased and the rest is unchanged |
| Breadcrumb.Trail | components/BreadCrumb/BreadCrumb.tsx:10-17 | for any segments, the trail is the home crumb followed by one crumb per segment, named by the decoded, capitalised segment and linking to `/` plus the first k+1 segments |
| Breadcrumb.Crumbs | components/BreadCrumb/BreadCrumb.tsx:10-17 | the trail is `Beranda` at `/` followed by one crumb per segment, each named by its decoded, capitalised segment and linking to `/` plus the first k+1 segments |
| Breadcrumb.RootHasOnlyHome | components/BreadCrumb/BreadCrumb.tsx:8-17 | the pathname `/` has only the home crumb |
| Breadcrumb.TrailHrefsNested | components/BreadCrumb/BreadCrumb.tsx:13 | within any trail, each crumb's link is a proper, strictly shorter prefix of the next one |
| Breadcrumb.HrefsNested | components/BreadCrumb/BreadCrumb.tsx:13 | each crumb's link is a proper, strictly shorter prefix of the next one |
| Breadcrumb.HrefsLonger | components/BreadCrumb/BreadCrumb.tsx:13 | when links grow strictly in length between neighbours, any earlier link is shorter than any later one |
| Breadcrumb.KeysDistinct | components/BreadCrumb/BreadCrumb.tsx:22-23 | no two crumbs share a link, so the list keys `crumb.href` are distinct |
| Breadcrumb.LastCrumbIsPage | components/BreadCrumb/BreadCrumb.tsx:13 | for a pathname written from its segments, the last crumb links to the pathname itself |
| Breadcrumb.Render | components/BreadCrumb/BreadCrumb.tsx:22-32 | only the last crumb is styled as current, and a separator follows every other crumb |
| Zod.CheckString | app/schemas/dailyDakwahScema.ts:4-8 | a string with its checks yields no issue exactly when every check passes, and at most one issue per check |
| Zod.StringField | app/schemas/dailyDakwahScema.ts:4-19 | a string field is clean exactly when it is a string passing every check, or is optional and absent |
| Zod.BooleanField | app/schemas/dailyDakwahScema.ts:21 | a boolean field is clean exactly when it is a boolean, or is optional and absent |
| DakwahSchema.PlainTextLength | app/schemas/dailyDakwahScema.ts:8 | text matching `[a-zA-Z0-9\s]+` has as many code units as characters |
| DakwahSchema.PlainText | app/schemas/dailyDakwahScema.ts:8 | text matching `[a-zA-Z0-9\s]+` is non-empty and made only of Basic Multilingual Plane characters |
| DakwahSchema.PlainFieldIssues | app/schemas/dailyDakwahScema.ts:4-14 | a title or description is clean exactly when it is a string of 1 to max characters from the plain class |
| DakwahSchema.Issues | app/schemas/dailyDakwahScema.ts:3-22 | every issue names one of the four post fields |
| DakwahSchema.ValidIff | app/schemas/dailyDakwahScema.ts:3-22 | a post is accepted exactly when the title has 1 to 32 plain characters, the description 1 to 120, `image_url` is a non-empty URL, and `published` is a boolean |
| DakwahSchema.TitleExamples | app/schemas/dailyDakwahScema.ts:6-8 | three spaces is a valid title; punctuation, 33 characters or the empty string are not |
| HomeSliderSchema.ButtonLinkIff | app/schemas/homeSlidersSchema.ts:9-19 | a button link is accepted exactly when absent, empty, `/` followed by one or more of `[a-zA-Z0-9/_-]`, or starting with `http://` or `https://` |
| HomeSliderSchema.ButtonLinkIssues | app/schemas/homeSlidersSchema.ts:9-19 | a button link yields at most one issue, and it is about `button_link` |
| HomeSliderSchema.ButtonLinkAccepted | app/schemas/homeSlidersSchema.ts:9-14 | absent, empty, a relative path, and anything after an http(s) scheme are accepted |
| HomeSliderSchema.ButtonLinkRejected | app/schemas/homeSlidersSchema.ts:12-19 | `/` alone, `/a b`, `/page.html` and `ftp://x` fail the refinement, and `null` fails the type check |
| HomeSliderSchema.Issues | app/schemas/homeSlidersSchema.ts:3-23 | every issue names one of the nine slider fields |
| HomeSliderSchema.ValidIff | app/schemas/homeSlidersSchema.ts:3-23 | a slider form is accepted exactly when the image is a URL, the title is non-empty, the link passes its rule, and the other fields are absent or of their type |
| Paging.ParamOr | app/api/proposal/route.ts:21-22 | a missing or empty parameter takes the default, any other value is used as given |
| Paging.From | app/api/proposal/route.ts:37 | from page 1 on, with a non-negative limit, the offset is never negative |
| Paging.FromIsProduct | app/api/proposal/route.ts:37 | the offset counted page by page is `(page - 1) * limit`, for every page including zero and negative ones |
| Paging.MakeWindow | app/api/proposal/route.ts:37-38 | a window starts at the page's offset and spans exactly `limit` rows: `to - from + 1 = limit` |
| Paging.PageWindow | app/api/proposal/route.ts:21-38 | a window exists exactly when both parameters parse, and it is then the window of the parsed page and limit |
| Paging.DefaultPage | app/api/proposal/route.ts:21 | a missing or empty `page` is page 1 |
| Paging.DefaultLimit | app/api/proposal/route.ts:22 | a missing or empty `limit` is the route's default |
| Paging.DefaultWindow | app/api/proposal/route.ts:21-38 | without parameters the window is rows 0 to default-1 of page 1 |
| Paging.FromNonNegative | app/api/proposal/route.ts:37 | from page 1 on the offset is never negative |
| Paging.ParsedWindow | app/api/proposal/route.ts:21-38 | page and limit texts that `parseInt` reads as p and l ask for exactly page p's window, whatever follows their digits |
| Paging.NumberedWindow | app/api/proposal/route.ts:21-38 | page and limit given as numerals ask for exactly that page's window |
| Paging.RangeRows | app/api/proposal/route.ts:39 | an inclusive range returns at most `to - from + 1` rows, the rows at those positions in order, and exactly that many when they all exist |
| Paging.NextPageFollows | app/api/proposal/route.ts:37-38 | page p+1 starts right after page p ends |
| Paging.PagesDisjoint | app/api/proposal/route.ts:37-38 | an earlier page ends before any later page starts |
| Paging.RangeRowsAdjacent | app/api/proposal/route.ts:39 | two adjacent inclusive ranges together return the rows of the range spanning both |
| Paging.ConsecutivePages | app/api/proposal/route.ts:37-39 | two consecutive pages together are exactly the range spanning both |
| Paging.ConsecutiveFetches | app/api/proposal/route.ts:37-39 | fetching the windows of pages p and p+1 returns exactly the range spanning both |
| Paging.FirstPagesArePrefix | app/api/proposal/route.ts:37-39 | pages 1 to k read in order are the first k*limit rows (or all rows), each once |
| Paging.PagesReadAreFirstPages | app/api/proposal/route.ts:37-39 | a client shown each page's window reads exactly the rows of pages 1 to k |
| Proposal.ValidIff | app/api/proposal/route.ts:5-10 | a submission is valid exactly when the name has at least 2 code units, e-mail and file URL are recognised, and the phone matches the pattern |
| Proposal.Issues | app/api/proposal/route.ts:5-10 | every issue names one of the four submission fields |
| Proposal.PhonePattern | app/api/proposal/route.ts:8 | a matching number has 2 to 16 characters, does not start with 0, and ends with a digit |
| Proposal.PhoneExamples | app/api/proposal/route.ts:8 | an optional `+`, a first digit 1-9 and 2 to 15 digits in all: `+6281234567890` matches; a leading 0, one digit, 16 digits, `++` or a dash do not |
| Proposal.AstralNameLongEnough | app/api/proposal/route.ts:6 | one character outside the Basic Multilingual Plane already counts as length 2 |
| Proposal.ReadFilter | app/api/proposal/route.ts:27-29 | only the exact texts `true` and `false` filter, each to its own value; anything else means no filter |
| Proposal.ListRequest | app/api/proposal/route.ts:19-38 | the query carries the read filter, a search only when the text is non-empty, and the radix-10 window with default limit 10 |
| Proposal.CountWhere | app/api/proposal/route.ts:77-81 | the number of rows an equality filter matches is zero exactly when no row passes it |
| Proposal.Where | app/api/proposal/route.ts:26-29 | an equality filter on `email`, `id` or `is_read` returns only passing rows from the table, returns every passing row, and returns as many rows as pass |
| Proposal.WhereAppend | app/api/proposal/route.ts:26-29 | filtering a concatenation is filtering each part in turn, so the result keeps table order |
| Proposal.WhereSingle | app/api/proposal/route.ts:26-29 | a single row is returned exactly when it passes; with WhereAppend this says every passing row appears once, in table order |
| Proposal.FilterRead | app/api/proposal/route.ts:27-29 | no filter keeps all rows. A filter keeps only rows with that read state, keeps every such row, and keeps as many rows as have it |
| Proposal.FilterReadAppend | app/api/proposal/route.ts:27-29 | the read filter over a concatenation is the filter over each part in turn, so table order is kept |
| Proposal.FilterReadSingle | app/api/proposal/route.ts:27-29 | one row is kept exactly when there is no filter or the row has the filtered read state |
| Proposal.ListResponse | app/api/proposal/route.ts:41-56 | a query error gives 500 with its message, otherwise the rows and the total count |
| Proposal.ListOverTable | app/api/proposal/route.ts:26-50 | without search text, a listing succeeds exactly when the limit is not negative and the offset is within the exact filtered count; a refused range gives 500 with the database's message. A successful listing holds at most `limit` rows, all passing the read filter, with the exact filtered total |
| Proposal.LookupByEmail | app/api/proposal/route.ts:77-81 | `.single()` finds a row exactly when one row has the e-mail; zero or several give `PGRST116` |
| Proposal.UniqueCountAtMostOne | app/api/proposal/route.ts:77-95 | with unique e-mails, at most one row matches |
| Proposal.Submit | app/api/proposal/route.ts:60-117 | an invalid body gives 400 before any lookup. A lookup error other than `PGRST116` gives 500. Exactly one existing row gives 409. Otherwise one unread row with the validated fields is appended, unless the insert fails (500). Every failure leaves the table unchanged |
| Proposal.SubmitKeepsEmailsUnique | app/api/proposal/route.ts:77-104 | if no two proposals share an e-mail, none do after a submission |
| Proposal.DuplicatesHideConflict | app/api/proposal/route.ts:77-90 | once two proposals share an address, `PGRST116` reads as absence and a further submission with it is accepted |
| Proposal.MarkRead | app/api/proposal/route.ts:131-135 | every row with the id becomes read and every other row is unchanged |
| Proposal.RowsWithId | app/api/proposal/route.ts:131-135 | the returned rows are exactly the table's rows with that id: each has the id, every such row is returned, and there are as many as there are matching rows |
| Proposal.Patch | app/api/proposal/route.ts:119-154 | an unparseable body or a falsy id gives 400. With a truthy id, an update error gives 500 and no update; otherwise the request succeeds, the rows with `String(id)` become read and are returned. Every failure leaves the table unchanged |
| Proposal.PatchIdempotent | app/api/proposal/route.ts:131-135 | marking the same id read twice gives the same table and reply as once |
| GaleryDakwah.Get | app/api/galery-dakwah/route.ts:5-31 | a query error gives 500 with its message, and otherwise the listing succeeds |
| GaleryDakwah.GetDefault | app/api/galery-dakwah/route.ts:7-8 | without parameters the nine newest images are listed |
| GaleryDakwah.GetParsedPage | app/api/galery-dakwah/route.ts:7-15 | page and limit texts that `parseInt` reads as p and l list the rows at positions (p-1)*l to (p-1)*l+l-1 that exist |
| GaleryDakwah.GetNumberedPage | app/api/galery-dakwah/route.ts:7-15 | the same for page and limit written as numerals |
| GaleryDakwah.ConsecutiveGets | app/api/galery-dakwah/route.ts:9-15 | pages read as p and p+1 with the same limit list exactly the rows spanning both |
| GaleryDakwah.ShownPageIsWindow | app/api/galery-dakwah/route.ts:9-15 | every page the listing shows for a numeral page is that page's window |
| GaleryDakwah.PagesReadArePrefix | app/api/galery-dakwah/route.ts:9-15 | pages 1 to k read in order show the newest k*l images (or all), each once |
| GaleryDakwah.HexWithoutRadix | app/api/galery-dakwah/route.ts:7 | without a radix, `0x2` parses as hexadecimal 2 |
| Proposal.HexWithRadix10 | app/api/proposal/route.ts:21 | with radix 10, `0x2` parses as 0 |
| GaleryDakwah.TrailingText | app/api/galery-dakwah/route.ts:7 | digits followed by other text parse as the digits |
| GaleryDakwah.HexPageParam | app/api/galery-dakwah/route.ts:7-9 | the listing reads `page=0x2` as page 2 |
| GaleryDakwah.Extension | app/api/galery-dakwah/route.ts:44 | the extension is dot-free and ends the name. When the name has a dot, a dot precedes it, so it is the text after the last dot; otherwise it is the whole name |
| GaleryDakwah.ExtensionAfterDot | app/api/galery-dakwah/route.ts:44 | the text after a final dot is recovered as the extension |
| GaleryDakwah.StoredName | app/api/galery-dakwah/route.ts:45 | the name starts with `dakwah-`, is 8 characters longer than the uuid and extension together, and a dot-free extension reads back as its extension |
| GaleryDakwah.StoragePath | app/api/galery-dakwah/route.ts:46 | the path is `dakwah/` followed by the filename |
| GaleryDakwah.StoredNameKeepsExtension | app/api/galery-dakwah/route.ts:44-46 | `dakwah-<uuid>.<ext>` has extension `ext`, starts with `dakwah-`, and the path `dakwah/<filename>` ends with the filename |
| GaleryDakwah.StoredNamesDiffer | app/api/galery-dakwah/route.ts:45 | different uuids give different names for the same extension |
| GaleryDakwah.Post | app/api/galery-dakwah/route.ts:33-84 | a missing file or empty name gives 400 and changes nothing. An upload error gives 500 and changes nothing. Otherwise the object is stored at `dakwah/<filename>`; an insert error then gives 500 with the object kept, and success appends a row named by the filename with the path's public URL |
| GaleryDakwah.PostKeepsBacked | app/api/galery-dakwah/route.ts:46-71 | if every gallery row has its object at `dakwah/<name>`, it still does after an upload |
| GaleryDakwah.PostKeepsExtension | app/api/galery-dakwah/route.ts:44-71 | a successful upload appends one row whose name has the uploaded file's extension |
| GaleryNews.Get | app/api/galery-news/route.ts:5-31 | an error gives 500 with `Gagal memuat gambar: ` and its message. Otherwise the total is the table's row count |
| GaleryNews.GetParsedPage | app/api/galery-news/route.ts:7-24 | page and limit texts read as p and l echo p, report the total, and list at most l rows, those from position (p-1)*l |
| GaleryNews.GetDefault | app/api/galery-news/route.ts:7-8 | without parameters, page 1 with the nine newest images is returned |
| GaleryNews.ConsecutiveGets | app/api/galery-news/route.ts:9-16 | pages read as p and p+1 do not overlap and leave no gap |
| GaleryNews.NonNumericPageEchoedAsNull | app/api/galery-news/route.ts:7-24 | a page parameter that is not a number is echoed as `null` |

## Left out

- All database, storage and mail I/O. Each call's outcome is a parameter, and a table is a sequence the handler reads and appends to.
- The concurrent interleaving of the slider count and the insert. Each handler is one sequential step.
- The home-slider `GET`, `OPTIONS` handlers and CORS headers: plumbing with no decision.
- `req.json()` / `req.formData()` throwing in the slider, OTP, proposal `POST` and gallery handlers. Their bodies are given already parsed; only the proposal `PATCH` models an unparseable body, because it handles it.
- Otp.OtpNumber: computes with exact reals, not IEEE doubles. The range claim holds for both, but rounding near 999999.5 is not modelled.
- Otp.Send: the e-mail and name fields are modelled as strings or absent. A truthy number or object also passes the `!email || !name` guard and is then inserted and mailed as it is. The model cannot express such a body, because what the text column and the mailer make of a non-string value is decided outside this code.
- Otp.LatestCandidate: among candidates with the same `created_at`, the model picks the one inserted last. `order('created_at', { ascending: false }).limit(1)` leaves the order of tied rows to the database, so this tie-break is a modelling choice. The lemmas that rely on the pick (Otp.NewestCandidateIsPicked, Otp.IssueThenVerify) require that every earlier record was created strictly before the new one, where no tie arises.
- Otp.Verify: e-mail and OTP fields are modelled as strings or absent; other JSON types are not, and record ids are table positions.
- Breadcrumb.Capitalize: uppercases ASCII letters only, since `toUpperCase` of other characters (which can change length) is not modelled.
- Breadcrumb.Crumbs: `decodeURIComponent` is a total parameter; its throwing on malformed escapes is not modelled.
- Proposal.ListOverTable: the `search` text's `ilike` filter is not modelled, so the lemma requires a query without search text. It also requires a non-negative offset (page 1 or later): the database's reply to a negative offset is not modelled. The refusal of a negative limit and of an offset beyond the exact count follows PostgREST's documented range errors, with the message as a parameter.
- GaleryDakwah.Get: a window with a `NaN` parameter, a negative offset or a negative limit is answered by a parameter, as the database's reply to such a range (an error for a negative limit) is not modelled.
- GaleryNews.Get: the same as `GaleryDakwah.Get` for its window. The query also asks for the exact count, so the database refuses an offset beyond the table's size; that refusal is one value of the list-error parameter, and GaleryNews.GetParsedPage and GaleryNews.ConsecutiveGets, which pass no list error, describe only the pages the database serves.
- GaleryDakwah.Post: the public URL is a parameter, and a name clash with an existing object (`upsert: false`) is folded into the upload-error parameter.
- JsValues.ParseInt: reads digits into an unbounded integer. JavaScript's `parseInt` returns a double, which is inexact beyond 2^53 (about 16 digits); such page or limit texts are not modelled.
- Paging.From: the offset `(page - 1) * limit` is exact over unbounded integers. The program computes it in doubles, which are inexact beyond 2^53; `Paging.MakeWindow` and the listings inherit this.
- JsValues.ToText: JSON numbers are modelled as integers, so a fractional or exponent-notation id is not rendered.
- The delete handlers and the update and highlight routes are not part of this model. Three capacity rules in them are therefore not modelled, and no lemma covers histories that mix them with creates:
  - app/api/home-sliders/[id]/highlight/route.ts:36-47 refuses (400) to hide the only visible slider and to show a sixth.
  - app/api/home-sliders/[id]/route.ts:87-103 turns `visible` off on update when `(count ?? 0) >= 5` other sliders are visible.
  - app/api/daily-dakwah/[id]/highlight/route.ts:34-45 refuses (400) a sixth highlight when `(count || 0) >= 5`.
- The file-backed news store, login, JWT signing and verification, bcrypt, cookie handling, the e-mail template, and all React components are not part of this model.
