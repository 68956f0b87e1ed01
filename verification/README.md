# Xylocope site: deploy webhook, front-end utilities and page modules

This project is a Dafny model of the logic of the Xylocope portfolio site.
It covers:

- **The deploy webhook** (`deploy.php`):
  - the GitHub source-address allow-list, PHP's `ip2long`/`long2ip` included;
  - the HMAC signature gate and the other gates of `main`: method, payload, JSON, branch;
  - the deployment (`deployWebsite`) with its backup, the three git commands and the restore when one fails;
  - backup retention: five archives kept, by descending name;
  - the password-protected log viewer that shows the last 100 lines;
  - the top-level dispatch.
- **The utility script** (`js/utils.js`):
  - `debounce` and `throttle` as state machines over call and timer events;
  - `getOffset` and `isInViewport`;
  - the form validators `email`, `phone`, `required`, `minLength` and `maxLength`.
- **The page controller** (`js/main.js`):
  - the mobile menu;
  - the portfolio filter;
  - the scroll-spy navigation dots;
  - the contact form: per-field validation and error nodes, the submit flow with its loading button, and the 30-day memory of the sender's name and e-mail;
  - the DOM cache and `destroy`.
- **The navigation module** (`js/modules/NavigationModule.js`):
  - dot activation by the first matching `href`;
  - the active section, by first match and by last match;
  - `smoothScrollTo`, including the 10-pixel dead zone and the frame progress;
  - `scrollToSection` and the dot click handler.
- **The video gallery module** (`dist/js/modules/VideoGalleryModule.js`):
  - the shuffled playlist with its cursor;
  - next and previous;
  - random picks;
  - loading videos and images (the `alt` text comes from the file name);
  - volume clamping, mute toggling and `cleanup`.
- **The build script** (`fix-paths.js`):
  - the five absolute-to-relative path conversions applied with a global literal `RegExp`;
  - the per-file change count and the total.

Values from outside are parameters of the model:

- the clock;
- `Math.random`;
- HMAC-SHA256;
- the JSON parser;
- the outcome of shell commands;
- the file system;
- the layout values of the DOM.

One Dafny module is defined per concern:

| module | models |
|---|---|
| `Common` | `trim`, `explode`/`split`, `implode`, white space |
| `LexOrder` | `strcmp` order and `rsort` |
| `Ipv4` | `ip2long` and `long2ip` |
| `AllowList` | `isValidGitHubIP` |
| `Backups` | backup retention |
| `Deploy` | `deployWebsite` |
| `Webhook` | `main`, the log viewer and the dispatch |
| `Timing` | `debounce` and `throttle` |
| `Geometry` | `getOffset` and `isInViewport` |
| `Validators` | the validators |
| `PageController` | menu, filter, dots, cache and `destroy` of `main.js` |
| `ContactForm` | the contact form of `main.js` |
| `Navigation` | `NavigationModule` |
| `Gallery` | `VideoGalleryModule` |
| `PathRewriter` | `fix-paths.js` |

Some behaviour of the code as written differs from what its comments, its
tests or its design suggest. The model follows the code in every case but the first-dot lookup of `NavigationModule`, which it models as the code evidently intends:

- **Unparsable client addresses pass the allow-list.** `ip2long` gives `false` for an IPv6 subnet. PHP compares `ip2long($ip) & mask == false` as "the masked value is 0". So the two IPv6 entries admit every client address `ip2long` cannot parse, the fallback `'unknown'` included. Among dotted quads they admit `0.0.0.0` to `0.0.0.7`. See `AllowList.GitHubAllowListExactly`, `AllowList.UnparsableClientAllowed` and `Webhook.NoAddressHeaderPasses`.
- **The 405 branch of `main` is unreachable.** `main` only runs for a POST, so its 405 answer is never sent (`Webhook.Dispatch`).
- **The restore extracts this run's own archive.** That is the archive the same run just wrote, so a failed git command brings back the state taken moments before.
- **The email regex accepts consecutive dots.** The unit tests expect `validators.email('test..test@example.com')` to be `false`, but the pattern accepts it (`Validators.DoubleDotLocalPartAccepted`).
- **Padding does not lengthen a value.** The unit tests expect `validators.minLength('  hi  ', 3)` to be `true`, but the value is trimmed first, so it is `false` (`Validators.PaddedShortValueRejected`).
- **`find` on a NodeList.** `NavigationModule.updateActiveNavDot` calls `find` on `navDots`, which `cacheElements` fills with `querySelectorAll`. A NodeList has no `find`, so as written the call throws a `TypeError` just after every dot has been deactivated. The dot click handler, the scroll handler and `init` throw with it whenever a section matches. Here the model departs from the code: it takes `navDots` to be an array, and activates the first dot whose `href` matches. The page controller activates every matching dot; the two agree when `href`s are distinct (`Navigation.AgreesWithPageVersion`).
- **Two scroll-spy conventions.** The scroll-spy handlers keep the LAST section whose window holds the scroll position, while `getCurrentActiveSection` returns the FIRST. They agree when the windows do not overlap and differ when they do (`Navigation.FirstAndLastAgree`, `Navigation.OverlapDisagrees`).
- **An empty playlist yields `NaN`.** `loadNextVideo` on an empty playlist computes `(i + 1) % 0`, which is `NaN`. `loadPreviousVideo` sets the index to `-1`. Neither loads anything (`Gallery.EmptyPlaylistLoadsNothing`).

## Model

| member | source | states |
|---|---|---|
| Ipv4.Ip2Long | deploy.php:43 | `ip2long` answers a value below 2^32 exactly for text that splits at dots into four canonical decimal octets |
| Ipv4.Dec | deploy.php:43 | a decimal rendering is a non-empty digit string without a leading zero and without a dot |
| Ipv4.DecRoundTrip | deploy.php:43 | parsing the decimal rendering of a number gives the number back |
| Ipv4.DecOfDecValue | deploy.php:43 | rendering the value of a canonical digit string gives the string back |
| Ipv4.Ip2LongLong2Ip | deploy.php:43 | every 32-bit address survives `long2ip` followed by `ip2long` |
| Ipv4.Long2IpIp2Long | deploy.php:43 | `ip2long` accepts only canonical spellings: any accepted text is the `long2ip` of its value |
| Ipv4.Ip2LongOfOctets | deploy.php:43 | the dotted quad of four octets parses to their big-endian combination |
| Ipv4.OctetsSplit | deploy.php:43 | the big-endian combination of four octets splits back into those octets |
| Ipv4.NoDotRejected | deploy.php:43 | text without a dot is never an address |
| AllowList.IsAllowed | deploy.php:39-53 | the loop over the list allows an address exactly when some entry matches it |
| AllowList.IsValidGitHubIp | deploy.php:39-53 | the address gate is the allow-list loop run over the six GitHub entries |
| AllowList.ClearLowBlock | deploy.php:43 | clearing the low bits of an address lands on an aligned base exactly when the address lies in that block |
| AllowList.CidrMatchesBlock | deploy.php:41-45 | for a parsable address and an aligned subnet, a `subnet/mask` entry matches exactly the addresses of the block |
| AllowList.NonIpv4SubnetMatchesZero | deploy.php:43 | a subnet `ip2long` rejects matches exactly the clients whose masked value is 0 |
| AllowList.UnparsableClientAllowed | deploy.php:23-24 | every client address `ip2long` cannot parse is allowed |
| AllowList.UnknownClientAllowed | deploy.php:193-194 | the fallback client `'unknown'` is allowed |
| AllowList.Ipv6SubnetsUnparsable | deploy.php:23-24 | neither IPv6 subnet of the list is a dotted quad |
| AllowList.Range0OnAddress | deploy.php:19 | `192.30.252.0/22` matches exactly the addresses of that block |
| AllowList.Range1OnAddress | deploy.php:20 | `185.199.108.0/22` matches exactly the addresses of that block |
| AllowList.Range2OnAddress | deploy.php:21 | `140.82.112.0/20` matches exactly the addresses of that block |
| AllowList.Range3OnAddress | deploy.php:22 | `143.55.64.0/20` matches exactly the addresses of that block |
| AllowList.Ipv6RangesOnAddress | deploy.php:23-24 | among dotted quads, the `/29` IPv6 entry admits values below 8 and the `/32` one only 0 |
| AllowList.GitHubAllowListExactly | deploy.php:18-53 | the allow-list admits an address exactly when it is unparsable, in one of the four IPv4 blocks, or below 8 |
| AllowList.AllowedBySix | deploy.php:40-52 | a six-entry list allows exactly what one of its six entries matches |
| LexOrder.LessIrreflexive | deploy.php:104 | no name sorts before itself |
| LexOrder.LessTransitive | deploy.php:104 | the `strcmp` order is transitive |
| LexOrder.LessTotal | deploy.php:104 | any two different names are ordered one way |
| LexOrder.LessAsymmetric | deploy.php:104 | the `strcmp` order is asymmetric |
| LexOrder.LessPrefix | deploy.php:94 | a common prefix such as the backup directory does not change the order |
| LexOrder.LessEqualLength | deploy.php:94 | names that differ within equal-length stamps compare as the stamps, whatever follows |
| LexOrder.Insert | deploy.php:104 | inserting into a descending list keeps it descending and adds exactly the one name |
| LexOrder.SortDesc | deploy.php:104 | `rsort` returns the same names, as a multiset, in descending order |
| Backups.AddFile | deploy.php:96-103 | the listing after `tar` holds the new archive and otherwise the names already present |
| Backups.BackupPath | deploy.php:93-94 | an archive is named `backup_` plus the time stamp plus `.tar.gz` inside the backup directory |
| Backups.Retain | deploy.php:103-110 | retention keeps the first five names in descending order and deletes the rest; nothing is lost, and every deleted name sorts at or below every kept one |
| Backups.NewestKept | deploy.php:103-110 | a name above every other name of the listing is never deleted |
| Backups.BackupPathOrder | deploy.php:93-94 | backup names with equal-length time stamps sort as their stamps do |
| Backups.AfterBackupsCount | deploy.php:99-110 | from at most five archives, each new distinctly named archive grows the directory by one until it holds five |
| Backups.RetentionCount | deploy.php:102-110 | after n successful backups with distinct names, min(n, 5) archives remain |
| Deploy.RunGit | deploy.php:146-164 | the git loop runs every command when all succeed; otherwise it stops at the first failure and then issues exactly one restore of the archive |
| Deploy.DeployWebsite | deploy.php:122-179 | the deployment succeeds exactly when git exists, the site is a working copy, the backup succeeds, every git command succeeds, and `index.html` and `css/` exist; a backup exists exactly when the first three hold |
| Deploy.GitFailureRestores | deploy.php:152-163 | a failure of git command k after the earlier ones succeeded issues the commands up to k and then the restore, and the deployment fails |
| Deploy.PostCheckFailureKeepsUpdate | deploy.php:166-175 | a missing `index.html` or `css/` after a clean git run fails without any restore |
| Deploy.RestoreStatusIgnored | deploy.php:159 | the exit status of the restore never changes the outcome |
| Deploy.NewArchiveKept | deploy.php:99-112 | an archive named above every archive already present survives its own clean-up |
| Deploy.GitOnlyWhenPrepared | deploy.php:125-143 | no git command runs unless git exists, the site is a working copy and the backup succeeded; git never comes before the backup |
| Deploy.RestoreIsLastAndOwnArchive | deploy.php:158-162 | a restore extracts the archive written by the same run, is the last command, and means failure |
| Webhook.SignatureValid | deploy.php:58-61 | the signature check passes exactly when the header is present and equals `sha256=` followed by the hex HMAC-SHA256 of the payload under the secret; an absent header, defaulted to `''`, never passes |
| Webhook.HandleWebhook | deploy.php:184-257 | the gates answer in order: a non-POST 405, a refused address 403, an empty payload 400, a bad signature 403, invalid JSON 400, another branch 200 `Push ignoré`, each only once the earlier gates pass; a deployment happens exactly when every gate passes and the `commits` entry can be counted, answering 200 on success and 500 on failure with the report; a push to `main` whose `commits` is a string, number or boolean ends in a 500 fatal error without deploying |
| Webhook.ClientIp | deploy.php:193 | the client address is the `X-Forwarded-For` header when present, else `REMOTE_ADDR` when present, else `'unknown'` |
| Webhook.PhpEmpty | deploy.php:201-206 | PHP `empty` holds of a string exactly when it is `''` or `'0'`, so a body `0` is refused like an empty one |
| Webhook.Accepted | deploy.php:186-233 | the conjunction of the gates: a POST, an allowed address, a non-empty body, a valid signature, JSON whose `ref` is `refs/heads/main` and whose `commits` can be counted |
| Webhook.LogTail | deploy.php:272-277 | the log viewer shows the last 100 newline-separated lines of the log, joined back with newlines |
| Webhook.ShowLogs | deploy.php:260-282 | the log viewer refuses with 403 without the right key and answers 200 with it |
| Webhook.Dispatch | deploy.php:260-287 | only an accepted request deploys, and the 405 answer is never sent |
| Webhook.DeployNeedsSignature | deploy.php:208-214 | a deployment needs the signature header to be exactly `sha256=` and the HMAC of the body |
| Webhook.MissingSignatureRefused | deploy.php:209-214 | a request without a signature header never deploys |
| Webhook.ForgedSignatureForbidden | deploy.php:208-214 | a wrong signature from an allowed address with a body gets 403 `Signature invalide` and no deployment |
| Webhook.OtherBranchIgnored | deploy.php:224-228 | a push to another branch, or one without `ref`, is answered 200 `Push ignoré` without deploying |
| Webhook.UncountableCommitsNotDeployed | deploy.php:224-233 | a push to `main` passing every gate whose `commits` entry cannot be counted gets status 500 and no deployment |
| Webhook.ForwardedForNonAddressPasses | deploy.php:193-194 | an `X-Forwarded-For` value that is not a dotted quad passes the address gate |
| Webhook.NoAddressHeaderPasses | deploy.php:193-194 | without either address header the client is `'unknown'`, which passes |
| Webhook.LogTailIsSuffix | deploy.php:272-277 | the log tail is the suffix of the log that starts just after a newline and holds exactly its last min(lines, 100) lines, and the whole log when it is short |
| Webhook.LogsNeedKey | deploy.php:260-265 | only the right key opens the log viewer; any other key gets 403 |
| Common.Trim | js/utils.js:115-125 | `trim` returns the slice between leading and trailing white space, with no white space at either end |
| Common.TrimIdempotent | js/utils.js:115-125 | trimming twice is trimming once |
| Common.TrimNonEmptyIff | js/utils.js:115-117 | trimming leaves something exactly when the text holds a non-space character |
| Common.Split | deploy.php:273 | `explode` gives at least one piece and no piece holds the separator |
| Common.JoinSplit | deploy.php:273-277 | splitting and joining back with the same separator restores the text |
| Common.SplitJoin | deploy.php:273-277 | joining separator-free pieces and splitting again gives the pieces |
| Common.Utf16Length | js/utils.js:120 | JavaScript's `length` lies between the number of characters and twice it; it equals the number of characters exactly when none is astral, and twice it exactly when all are |
| Timing.ThrottleOn | js/utils.js:38-47 | a call while idle runs the function and starts the limit; a call while limited is dropped; the timer ends the limit |
| Timing.ThrottleBound | js/utils.js:38-47 | a run of events invokes the function at most once per timer expiry, plus once if it starts idle |
| Timing.ThrottleBurst | js/utils.js:41-45 | a burst of calls from idle runs the function once, with the first call's arguments |
| Timing.ThrottledDropsAll | js/utils.js:41-45 | a burst of calls while limited runs nothing |
| Timing.DebounceOn | js/utils.js:19-35 | a call re-arms the timer with its own arguments and runs immediately only with `immediate` when idle; an expiry runs the pending call only without `immediate` |
| Timing.DebounceTrailingBurst | js/utils.js:19-35 | without `immediate`, a burst then an expiry runs once, with the last call's arguments |
| Timing.DebounceLeadingBurst | js/utils.js:19-35 | with `immediate`, a burst from idle then an expiry runs once, with the first call's arguments |
| Timing.CallsInvokeNothing | js/utils.js:22-33 | calls invoke nothing unless `immediate` and idle |
| Timing.CallsLeaveLastPending | js/utils.js:28-30 | a burst leaves the last call's arguments pending |
| Timing.RunAppend | js/utils.js:19-35 | running two event sequences in a row invokes what each invokes from the state the first leaves |
| Timing.DebounceBound | js/utils.js:19-35 | a run invokes at most once per expiry, plus once for a leading call from idle |
| Geometry.GetOffset | js/utils.js:59-66 | `getOffset` is the sum of the `offsetTop`s of the chain, non-negative when they all are |
| Geometry.OffsetThroughParent | js/utils.js:59-66 | the offset is the part of the chain walked so far plus the offset of the rest |
| Geometry.OrElse | js/utils.js:74-75 | JavaScript's logical or on numbers picks the second operand exactly when the first is 0 |
| Geometry.IsInViewport | js/utils.js:69-77 | an element is in the viewport exactly when its box lies within (0, 0, height, width), using the window size or the document's as a fallback |
| Geometry.ViewHeight | js/utils.js:74 | the viewport height is `innerHeight`, or the document element's `clientHeight` when it is 0 |
| Geometry.ViewWidth | js/utils.js:75 | the viewport width is `innerWidth`, or the document element's `clientWidth` when it is 0 |
| Geometry.InViewportShrinks | js/utils.js:69-77 | a box inside a box in the viewport is in the viewport too |
| Geometry.ViewportFallback | js/utils.js:74-75 | a zero window size falls back on the document element's size, and a non-zero one is used as it is |
| Validators.Find | js/utils.js:106 | the first position of a character, or none exactly when it does not occur |
| Validators.IsEmail | js/utils.js:105-108 | `email` accepts exactly a non-empty plain local part, one `@`, and a plain domain with a dot that has text on both sides |
| Validators.ShapeAtFirstAt | js/utils.js:106 | the pattern can only split at the first `@` |
| Validators.EmailHasOneAt | js/utils.js:106 | an accepted address holds exactly one `@` |
| Validators.DoubleDotLocalPartAccepted | js/utils.js:105-108 | `test..test@example.com` is accepted |
| Validators.NoDotAfterAtRejected | js/utils.js:106 | an address with no dot after the `@` is rejected |
| Validators.MissingLocalPartRejected | js/utils.js:106 | `@example.com` is rejected |
| Validators.SpaceBeforeAtRejected | js/utils.js:106 | white space before the `@` makes an address invalid |
| Validators.RemoveSpaces | js/utils.js:112 | removing white space leaves none, never lengthens, and leaves text without white space unchanged |
| Validators.RemoveSpacesAppend | js/utils.js:112 | removing white space distributes over concatenation |
| Validators.SpaceIgnored | js/utils.js:110-113 | white space anywhere in a phone number does not change the verdict |
| Validators.IsPhone | js/utils.js:110-113 | `phone` accepts exactly the texts that, without white space, are an optional `+`, a digit 1-9 and at most 15 more digits |
| Validators.PhoneDigitBounds | js/utils.js:111 | an accepted phone number has 1 to 16 digits and no leading zero |
| Validators.LeadingZeroRejected | js/utils.js:111 | `0612345678` is rejected |
| Validators.ShortPhoneAccepted | js/utils.js:111 | `123` is accepted |
| Validators.SeventeenDigitsRejected | js/utils.js:111 | seventeen digits after a `+` are rejected |
| Validators.Required | js/utils.js:115-117 | `required` holds exactly when the value has a non-space character |
| Validators.MinLength | js/utils.js:119-121 | `minLength` counts the UTF-16 code units of the trimmed value: a value of plain characters passes exactly when it has at least `min` characters, one of astral characters when twice its length reaches `min`, and any value with `min` characters passes |
| Validators.MaxLength | js/utils.js:123-125 | `maxLength` counts the same way: a value of plain characters passes exactly when it has at most `max` characters, one of astral characters when twice its length stays within `max`, and no passing value has more than `max` characters |
| Validators.RequiredIsMinLengthOne | js/utils.js:115-121 | `required` is `minLength` with a minimum of one |
| Validators.LengthBoundsMonotone | js/utils.js:119-125 | a larger minimum is harder to meet and a larger maximum easier |
| Validators.LengthIgnoresOuterSpace | js/utils.js:119-125 | surrounding white space never changes a length verdict |
| Validators.PaddedShortValueRejected | js/utils.js:119-121 | `minLength('  hi  ', 3)` is false |
| Validators.AstralCharactersCountTwice | js/utils.js:119-121 | five emoji meet a minimum length of ten; five letters do not |
| PageController.UpdateActiveNavDot | js/main.js:385-394 | every dot keeps its `href` and is active exactly when its `href` is `#` followed by the section |
| PageController.UpdateActiveNavDotIdempotent | js/main.js:385-394 | activating a section twice is activating it once |
| PageController.ScrollSpy | js/main.js:398-407 | the loop settles on the id of the last section whose window holds the scroll position, or `''` |
| PageController.UpdateActiveNavDotOnScroll | js/main.js:396-412 | the dots are updated for the last matching section, and left alone when there is none or its id is empty |
| PageController.LastMatchUnique | js/main.js:400-407 | only one id can be the last match |
| PageController.ShowItems | js/main.js:204-213 | an item shows as `block` exactly when the filter is `all` or equals its category, else `none` |
| PageController.ActivateOnly | js/main.js:200-201 | exactly the clicked filter button is active |
| PageController.ClickFilter | js/main.js:195-215 | a filter click activates exactly that button and shows exactly the items it selects |
| PageController.ClickFilterIdempotent | js/main.js:195-215 | clicking the same filter again changes nothing |
| PageController.AllShowsEverything | js/main.js:207-208 | the `all` filter shows every item |
| PageController.ToggleMobileMenu | js/main.js:115-138 | opening shows the menu as `flex`, locks the body and sets one style of each of the first three spans, keeping their other style and the later spans, or throws with fewer than three spans; closing hides the menu and resets every span |
| PageController.ClickTrigger | js/main.js:86-89 | a click on the trigger closes a menu shown as `flex`, and otherwise opens it, or throws when it has fewer than three spans |
| PageController.CloseAfterOpen | js/main.js:115-138 | closing after opening resets everything, and closing is idempotent |
| PageController.TwoClicksClose | js/main.js:86-89 | two clicks on the trigger from a closed menu leave it closed |
| PageController.GetCachedElement | js/main.js:693-702 | the key is the given key, or the selector when the key is absent or empty; the first lookup is stored, `null` included, and a cached key is answered from the cache |
| PageController.CacheIsSticky | js/main.js:693-702 | a cached key keeps answering with its first result even after the document changed |
| PageController.Destroy | js/main.js:715-728 | `destroy` calls every cleanup handler exactly once, in registration order; a handler that throws neither stops the loop nor escapes, and the errors swallowed are exactly those of the throwing handlers; then the handlers and the cache are emptied |
| PageController.DestroyIdempotent | js/main.js:715-728 | a second `destroy` calls no handler and leaves the emptied state as it is |
| ContactForm.ClearFieldError | js/main.js:490-496 | clearing drops the error class and at most one error node, and changes nothing else |
| ContactForm.ShowFieldError | js/main.js:503-518 | showing an error sets the class and appends one node with the message |
| ContactForm.ValidateField | js/main.js:451-484 | a field is valid exactly when it is not an empty required field, not a bad e-mail and not a message under 10 UTF-16 code units; the error class marks exactly the invalid ones, and the value is untouched |
| ContactForm.ShownMessage | js/main.js:460-481 | the message shown is that of the last failing check |
| ContactForm.ShortEmojiMessageAccepted | js/main.js:472-476 | a message of five emoji is long enough, because each counts as two units; a message of five letters is not |
| ContactForm.ErrorNodeCount | js/main.js:451-518 | a field with at most one error node ends with one node when invalid and none when valid |
| ContactForm.ValidateIdempotent | js/main.js:451-484 | validating twice leaves what validating once leaves |
| ContactForm.ValidateEach | js/main.js:562-566 | the loop validates every field, also after a failure, and the form is valid exactly when all fields are |
| ContactForm.ValidateAllFields | js/main.js:558-569 | every field is validated and the form is valid exactly when every field is |
| ContactForm.LoadingRoundTrip | js/main.js:578-592 | while loading, the button is disabled, shows `Envoi...` and has opacity 0.7; leaving the loading state with the caption entering it returned puts that caption back and re-enables the button, so an idle button comes back exactly as it was |
| ContactForm.FormValue | js/main.js:526-527 | the form data for a name is the value of the last field with that name, or none when no field has it |
| ContactForm.ResetValues | js/main.js:601 | `reset` gives every control back its default value and changes nothing else about it |
| ContactForm.ResetIdempotent | js/main.js:601 | resetting a reset form changes nothing |
| ContactForm.HandleFormSubmit | js/main.js:525-551 | an invalid form only gets the validation notice; otherwise the button goes to loading and back to its caption, with one success or error notice; data is saved, stamped now, exactly on success, after which every value is back at its default, while a failure keeps every value |
| ContactForm.ContactDataValid | js/main.js:652-654 | saved details are fresh exactly when they carry a time stamp less than 30 days old; a missing stamp gives `NaN`, which is never fresh |
| ContactForm.LoadSavedContactData | js/main.js:630-645 | unexpired saved data fills exactly the empty name and e-mail fields, with `''` for a missing value; otherwise nothing changes |
| ContactForm.SavedDataLifetime | js/main.js:599-654 | details saved at time t are offered again exactly while less than 30 days have passed |
| ContactForm.ExpiryValue | dist/js/config.js:62 | the expiry is 2 592 000 000 ms |
| Navigation.CurrentActiveSection | js/modules/NavigationModule.js:259-272 | the id of the first section whose window holds the scroll position, or none exactly when no window does |
| Navigation.OneWindowAtMost | js/modules/NavigationModule.js:262-268 | with disjoint windows at most one section matches |
| Navigation.FirstAndLastAgree | js/modules/NavigationModule.js:153-170 | with disjoint windows, the first match and the last match agree |
| Navigation.OverlapDisagrees | js/modules/NavigationModule.js:153-170 | with overlapping windows the first match and the last match differ |
| Navigation.UpdateActiveNavDot | js/modules/NavigationModule.js:176-195 | every dot keeps its `href`, and only the first dot whose `href` is `#` followed by the section becomes active |
| Navigation.SingleActiveDot | js/modules/NavigationModule.js:176-195 | at most one dot is active afterwards |
| Navigation.SomeDotActive | js/modules/NavigationModule.js:183-189 | some dot is active when some dot matches |
| Navigation.AgreesWithPageVersion | js/modules/NavigationModule.js:176-195 | with distinct `href`s this agrees with the page controller's version |
| Navigation.UpdateActiveNavDotOnScroll | js/modules/NavigationModule.js:153-170 | the dots are updated for the last matching section, and left alone when there is none or its id is empty |
| Navigation.SmoothScrollTo | js/modules/NavigationModule.js:202-217 | no target or a distance under 10 pixels starts nothing; otherwise the animation runs from the current position to the target minus `customOffset ?? SCROLL_OFFSET` |
| Navigation.ScrollSettles | js/modules/NavigationModule.js:208-217 | once at the target, a second call does not move |
| Navigation.ScrollToSection | js/modules/NavigationModule.js:279-289 | `scrollToSection` is false, and does not scroll, exactly when no element has the id |
| Navigation.HandleNavDotClick | js/modules/NavigationModule.js:86-103 | a dot without a target, or with a target not in the page, changes nothing; otherwise it scrolls to the target and activates its dot |
| Navigation.TargetId | js/modules/NavigationModule.js:89-93 | the target is the `href` without its first character, and there is none exactly when the `href` is absent or that leaves nothing |
| Navigation.TargetOfAnchor | js/modules/NavigationModule.js:89-93 | an anchor `#id` targets `id`, and a bare `#` targets nothing |
| Navigation.ClickedDotActive | js/modules/NavigationModule.js:86-103 | clicking the first dot for a present section makes it active |
| Navigation.Progress | js/modules/NavigationModule.js:226-227 | progress never exceeds 1, is at least 0, and is below 1 exactly before the duration; it is `NaN` exactly for a zero duration at time 0 |
| Navigation.FramesUntilDuration | js/modules/NavigationModule.js:226-237 | frames are requested exactly until the duration has passed, and progress never decreases |
| Gallery.JsRem | dist/js/modules/VideoGalleryModule.js:309 | JavaScript `%` is `NaN` exactly for a zero divisor and the Euclidean remainder for non-negative operands |
| Gallery.NextIndex | dist/js/modules/VideoGalleryModule.js:309 | next moves to `(i + 1) % n` with JavaScript's `%`, and a `NaN` index stays `NaN` |
| Gallery.PrevIndex | dist/js/modules/VideoGalleryModule.js:324-326 | previous moves to `n - 1` from 0 and one back otherwise, and a `NaN` index stays `NaN` |
| Gallery.IndexCycle | dist/js/modules/VideoGalleryModule.js:304-331 | on a non-empty playlist next and previous stay in range, wrap at the ends and undo each other |
| Gallery.At | dist/js/modules/VideoGalleryModule.js:310 | indexing gives an element of the list exactly when the index is in range |
| Gallery.ShuffleVideos | dist/js/modules/VideoGalleryModule.js:83-93 | the shuffle is a reordering of the configured videos |
| Gallery.ShuffleKeepsMembers | dist/js/modules/VideoGalleryModule.js:83-85 | a shuffle holds exactly the configured videos |
| Gallery.GetRandom | dist/js/modules/VideoGalleryModule.js:221-243 | a random pick is `null` exactly for an empty list and otherwise an element of it |
| Gallery.EveryElementReachable | dist/js/modules/VideoGalleryModule.js:227-228 | every element is picked by some value of `Math.random` |
| Gallery.LoadVideo | dist/js/modules/VideoGalleryModule.js:250-270 | a video loads exactly when there is an element and a non-empty file name, setting `src` to base path plus file name; otherwise nothing changes |
| Gallery.StemIsPrefix | dist/js/modules/VideoGalleryModule.js:287 | the stem is the file name up to its first dot |
| Gallery.LoadImage | dist/js/modules/VideoGalleryModule.js:278-298 | an image loads exactly when there is an element and a file name, setting `src` and `alt` to `Xylocope - ` plus the stem |
| Gallery.AltOfDottedName | dist/js/modules/VideoGalleryModule.js:287 | an image `name.ext` gets the alt text `Xylocope - name` |
| Gallery.Move | dist/js/modules/VideoGalleryModule.js:304-331 | next and previous reshuffle an empty playlist and move the cursor; the hero video's `src` becomes the base path plus the playlist entry under the new cursor when there is a hero element and a non-empty entry there, and the hero is untouched otherwise |
| Gallery.MovePreservesInv | dist/js/modules/VideoGalleryModule.js:304-331 | both moves keep the cursor on a shuffle of the configured videos, and a loaded video is one of them |
| Gallery.EmptyPlaylistLoadsNothing | dist/js/modules/VideoGalleryModule.js:304-331 | with no videos configured, neither move loads anything |
| Gallery.NextThenPrevious | dist/js/modules/VideoGalleryModule.js:304-331 | next then previous returns to the same state |
| Gallery.ClampVolume | dist/js/modules/VideoGalleryModule.js:396 | the volume is clamped into [0, 1], and a volume already inside is kept |
| Gallery.ClampIdempotent | dist/js/modules/VideoGalleryModule.js:396 | clamping twice is clamping once |
| Gallery.SetVideoVolume | dist/js/modules/VideoGalleryModule.js:393-402 | without a video nothing happens; otherwise only the volume changes, to the clamped value |
| Gallery.SetVideoMuted | dist/js/modules/VideoGalleryModule.js:408-416 | without a video nothing happens; a given value is set and an absent one toggles |
| Gallery.MuteToggleInvolution | dist/js/modules/VideoGalleryModule.js:408-416 | toggling twice changes nothing, and setting twice is setting once |
| Gallery.Cleanup | dist/js/modules/VideoGalleryModule.js:523-552 | `cleanup` empties the video's `src`, drops the elements and restores the constructor's state |
| Gallery.CleanupResets | dist/js/modules/VideoGalleryModule.js:18-23 | after `cleanup` the playlist invariant holds, and a second `cleanup` changes nothing |
| PathRewriter.Escape | fix-paths.js:28 | escaping leaves text without metacharacters unchanged and never shortens |
| PathRewriter.ReplaceAll | fix-paths.js:28-31 | `replace` with a global literal pattern scans left to right, replaces each occurrence and resumes after it |
| PathRewriter.Count | fix-paths.js:29-32 | `match(...).length`, 0 for `null`, counts the occurrences the same left-to-right scan finds |
| PathRewriter.Convert | fix-paths.js:27-35 | the conversions are applied in order; one with matches replaces them and adds their number to the changes, one without is skipped |
| PathRewriter.ReplaceLength | fix-paths.js:28-31 | each replacement changes the length by the difference of the two strings |
| PathRewriter.ReplaceOccurrences | fix-paths.js:28-31 | each replacement changes the number of a character by the difference of its counts in the two strings |
| PathRewriter.CountZeroIff | fix-paths.js:29-30 | `match` finds nothing exactly when the pattern does not occur |
| PathRewriter.NoMatchUnchanged | fix-paths.js:29-31 | without an occurrence, replacing changes nothing |
| PathRewriter.SuffixComesFromText | fix-paths.js:31 | when a replacement cannot create a pattern, a result starting with a proper suffix of the pattern comes from text that did |
| PathRewriter.ReplaceRemovesAll | fix-paths.js:31 | after a global replacement the pattern no longer occurs |
| PathRewriter.ReplaceIdempotent | fix-paths.js:28-31 | a second replacement finds nothing and changes nothing |
| PathRewriter.ConversionSafe | fix-paths.js:19-25 | a conversion that drops one `/` is one character shorter and has one `/` fewer |
| PathRewriter.RuleGood | fix-paths.js:19-25 | every `attr="/dir/` to `attr="dir/` conversion has no metacharacter, drops one slash, and can neither leave nor create its own pattern |
| PathRewriter.ConversionsSafe | fix-paths.js:19-25 | all five listed conversions have those properties |
| PathRewriter.ConvertShrinks | fix-paths.js:27-35 | the text shrinks by the number of changes and loses exactly that many `/`s; no change means the text is untouched |
| PathRewriter.FixFile | fix-paths.js:9-43 | a missing file is skipped; a file is written exactly when something changed, and then it is shorter by the number of changes |
| PathRewriter.FirstConversionComplete | fix-paths.js:20 | the first conversion leaves no `href="/css/` behind and counts every occurrence it replaced |
| PathRewriter.FixAbsolutePaths | fix-paths.js:6-46 | every file is processed and the total is the sum of the files' changes |
| PathRewriter.TotalZeroIff | fix-paths.js:40-46 | nothing is reported converted exactly when no file is written |

## Left out

- Logging: `writeLog`, `console.*`, and the log file's writes are left out. The log file's content is a parameter.
- Shell commands, the file system, HMAC-SHA256 and `json_decode` are parameters of `Host` and `Server`, not models.
  - The model does not check `hash_equals`' constant-time behaviour.
  - It does not model the repository and pusher fields used only for logging.
  - The `commits` entry is modelled only as whether `count` accepts it, as under PHP 8, where `count` on a string, number or boolean throws a `TypeError`; the number of commits is only logged.
- Time stamps: `date(...)`, `Date.now()` and `currentTime` are parameters. The backup name is built from a given stamp.
- Timers: `setTimeout`, `clearTimeout` and `requestAnimationFrame` are events (`Timing`), not real time. The `wait` and `limit` durations are left out.
- The GET information page is a fixed `InfoPage` answer. Its HTML is left out.
- `Math.random` is a parameter.
  - `Gallery.ShuffleVideos`: the order `sort` produces with a random comparator is not modelled. The method picks some reordering of the list, and only the reordering property is stated.
- Easing and floating point.
  - `easeInOutCubic` and the pixel positions of each frame are left out.
  - Progress is over reals with `NaN` explicit.
- `Navigation.Progress` and `Navigation.FramesUntilDuration` require a non-negative elapsed time. The frame clock never runs backwards in a browser, so a negative `timeElapsed` is not modelled.
- DOM details left out:
  - the `style.animation` string of the filter;
  - the error node's CSS;
  - notification rendering;
  - `FormData` beyond the last value per name;
  - the intersection observers and event-listener wiring;
  - the cursor, theme and accessibility setup;
  - `refresh`, `getStats` and `isSupported`.
- `PageController.ToggleMobileMenu`: the error result of an opening with fewer than three spans does not record the styles set before the throw. Missing menu or trigger elements, which would also throw, are not modelled.
- `ContactForm.ErrorNodeCount` and `ContactForm.ValidateIdempotent` require a field's container to hold at most one error node. That is the case on the page, where every control has a container of its own (tests/fixtures/dom-fixtures.js:43-76). Controls sharing one container, where clearing one field removes the node another field showed, are not modelled.
- `Timing.ThrottleOn`: a `func` that throws is not modelled. In the code the exception escapes before `inThrottle` is set and before the timer starts, so the throttle stays open and the next call runs `func` again; the model takes every invocation to return, and `Timing.ThrottleBound` holds only for such functions.
- `ContactForm.HandleFormSubmit`: the simulated request is a boolean. The rejection path exists in the code but the simulated promise never takes it.
- `Gallery.LoadVideo` and `Gallery.LoadImage`: the `try`/`catch` around setting `src` is left out, since an assignment to `src` does not throw.
- `Gallery.SetVideoVolume`: a `NaN` volume is not modelled. Volumes are reals.
- `Navigation.UpdateActiveNavDot`: the model treats `navDots` as an array and activates the first matching dot. The code as written calls `find` on a NodeList and throws a `TypeError` after deactivating every dot, so the code's own handlers never reach the activation.
- Selectors: sections without an `id` and an `href` that makes an invalid `querySelector` are not modelled. Ids are looked up through a given function.
- `PathRewriter.ReplaceIdempotent` is proved per conversion. Idempotence of the whole list of five, applied one after another, is not stated.
- The configuration (`dist/js/config.js`) is parameters or constants, except the values cited in the table.
