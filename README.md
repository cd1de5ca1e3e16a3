# Phishing scoring engine, modelled in Dafny

This project models the scoring core of a small phishing-detection backend.

- **URL features.** A feature extractor turns a URL into a fixed record of lexical and host features: lengths, host entropy, an IPv4-shaped host, an `@`, dots, suspicious words, HTTPS, link shorteners and path segments.
- **Heuristic scorer.** An ordered table of seven additive rules turns that record into a score clamped to [0,100] and a list of human-readable signals.
- **Fusion and advice.** When the classifier gives a probability, the heuristic score is blended 0.6/0.4 with it. The final score maps to a Low / Medium / High advice.
- **Redirect tracer.** It records at most max(`max_hops`, 1) intermediate responses and then the final one. A transport failure becomes a single error hop.
- **Attachment scorer.** A second rule table over the lowercased file name and the file size: listed extensions, large files and "invoice"/"payment" names.
- **Text cleaner.** The classifier's text cleaner lowercases the text, masks everything outside `[a-z0-9:/._-]`, collapses whitespace runs and strips the ends.

Modules, one file each:

- `Wrappers` holds `Option`.
- `PyStr` holds the Python string operations the code relies on, on ASCII: `isspace`, `strip`, `lower`, `endswith`, `in`, `count`, `split` and `str(n)`.
- `Preprocessing` is `clean_text`.
- `UrlFeatures` holds `simple_entropy`, `looks_like_ip` and `extract_features`.
- `Heuristics` is `heuristic_score_and_signals`.
- `Fusion` holds `combine_scores` and the advice tiers.
- `Redirects` is `trace_redirects`.
- `Attachments` is the body of the attachment handler.
- `Scan` holds the scoring steps of the URL scan handler and one worked URL end to end.

The two rule tables are imperative in the source: variables are updated rule by rule. So are the redirect loop and the extension loop. Each is a Dafny `method` proved against a specification function:

- `Heuristics.HeuristicScore` and `Heuristics.Signals` specify the rule table.
- `Attachments.AttachmentScore` and `Attachments.AttachmentSignals` specify the attachment scorer.
- `Redirects.Trace` specifies the redirect tracer.

The properties of the source are proved as lemmas about those functions. The feature extractor and the cleaner are expressions in the source, so they are functions here.

The code is followed as written, including these behaviours:

- The IP test accepts `999.999.999.999`.
- The shortener test is a bare suffix test, so `microsoft.co` counts as a `t.co` link.
- A `max_hops` of 0 or less still records one intermediate hop.

## Model

| member | source | states |
|---|---|---|
| PyStr.Lower | backend/utils.py:34 | `str.lower` on ASCII: same length, each `A`–`Z` mapped to its lower-case letter, every other character unchanged |
| PyStr.Strip | backend/utils.py:22 | `str.strip`: the result never starts or ends with whitespace, and an input that does not start or end with whitespace comes back unchanged |
| PyStr.StripIsSlice | backend/utils.py:22 | the stripped text is a contiguous slice of the input, and only whitespace lies outside it |
| PyStr.StripKeepsNonSpace | backend/utils.py:22 | stripping removes whitespace only: the non-space characters are exactly those of the input |
| PyStr.CountChar | backend/utils.py:33 | `str.count` of one character: zero exactly when the character is absent, never more than the length |
| PyStr.Split | backend/utils.py:37 | `str.split(sep)`: at least one part, and no part contains the separator |
| PyStr.CountCharSplit | backend/utils.py:33 | the number of dots is one less than the number of dot-separated parts |
| PyStr.SplitAtFirst | backend/utils.py:37 | splitting at the first separator gives the text before it followed by the split of the rest |
| PyStr.EndsWith | backend/utils.py:36 | `str.endswith`: the suffix is no longer than the text and equals its last characters (used by `SuffixOfSuffix` and the attachment lemmas) |
| PyStr.Contains | backend/utils.py:34 | the substring test `w in s`: some position of `s` starts a copy of `w` (`ContainsAt`, `NotContainsByChar` and `NotContainsByPair` decide it) |
| PyStr.NatToString | backend/app.py:66 | `str(n)`: non-empty, all decimal digits, and no leading zero except for 0 itself |
| PyStr.NatToStringRoundTrip | backend/app.py:66 | the decimal text of a count reads back as that count |
| Preprocessing.Mask | ml/utils/preprocessing.py:9 | each character outside `[a-z0-9:/._-]` becomes a space and every other character stays, at the same position |
| Preprocessing.Collapse | ml/utils/preprocessing.py:10 | whitespace collapsing never lengthens the text, and the first character is kept, or turned into a space if it was whitespace |
| Preprocessing.CollapseSingleSpaced | ml/utils/preprocessing.py:10 | after collapsing, no two whitespace characters are adjacent |
| Preprocessing.CollapseKeepsNonSpace | ml/utils/preprocessing.py:10 | collapsing touches whitespace only |
| Preprocessing.CollapseRun | ml/utils/preprocessing.py:10 | a maximal run of whitespace, followed by the end or a non-whitespace character, becomes exactly one space |
| Preprocessing.CollapseKeepsChar | ml/utils/preprocessing.py:10 | a non-whitespace character is kept as it is, in front of the collapse of the rest |
| Preprocessing.CleanTextSeparatesWords | ml/utils/preprocessing.py:4-11 | `clean_text("a!!b")` is `"a b"`: masked characters between two words leave one separating space |
| Preprocessing.CollapseIdentity | ml/utils/preprocessing.py:10 | a text whose only whitespace is single plain spaces is left unchanged |
| Preprocessing.MaskKeepsAllowed | ml/utils/preprocessing.py:9 | the non-space characters after masking are exactly the allowed characters of the input, in order |
| Preprocessing.CleanText | ml/utils/preprocessing.py:4-11 | the cleaned text is never longer than the input, and an empty input gives an empty output |
| Preprocessing.CleanTextIsClean | ml/utils/preprocessing.py:4-11 | the output holds only `[a-z0-9:/._-]` and single plain spaces, with no space at either end |
| Preprocessing.CleanTextKeepsAllowed | ml/utils/preprocessing.py:4-11 | the non-space characters of the output are exactly the allowed characters of the lowercased input, in order: nothing allowed is lost and nothing is added |
| Preprocessing.CleanTextFixesClean | ml/utils/preprocessing.py:4-11 | every clean text is a fixed point of the cleaner |
| Preprocessing.CleanTextIdempotent | ml/utils/preprocessing.py:4-11 | cleaning twice gives the same as cleaning once |
| UrlFeatures.SimpleEntropy | backend/utils.py:12-16 | the empty string has entropy 0.0, and any other string gets the Shannon entropy passed in |
| UrlFeatures.DigitRun | backend/utils.py:19 | the run of leading digits: all digits, and followed by a non-digit or by the end |
| UrlFeatures.MatchOctetsLength | backend/utils.py:19 | a text that fully matches one digit group plus n dotted groups has between 2n+1 and 4n+3 characters |
| UrlFeatures.LooksLikeIp | backend/utils.py:18-19 | `looks_like_ip`: a non-empty host fully matching the pattern, so an accepted host has 7 to 15 characters |
| UrlFeatures.MatchOctetsIff | backend/utils.py:19 | the regular-expression matcher for one group plus n dotted groups accepts exactly the texts that split at dots into n+1 groups of 1 to 3 digits |
| UrlFeatures.LooksLikeIpIff | backend/utils.py:18-19 | `looks_like_ip(h)` holds exactly when `h` is four dot-separated groups of 1 to 3 digits, in both directions |
| UrlFeatures.LooksLikeIpOutOfRange | backend/utils.py:19 | there is no octet range check: `999.999.999.999` looks like an IP |
| UrlFeatures.LooksLikeIpTooShort | backend/utils.py:19 | three groups and the empty host are refused |
| UrlFeatures.CountPresent | backend/utils.py:34 | each listed word counts at most once; the count is 0 exactly when no listed word occurs in the text, and equals the number of words exactly when all of them occur |
| UrlFeatures.AnyEndsWith | backend/utils.py:36 | `any(host.endswith(s) for s in domains)`: some listed domain is a suffix of the host (`ShortenerWithoutLabelBoundary`, `NoShortenerForEmptyHost`) |
| UrlFeatures.PathTokenCount | backend/utils.py:37 | the number of non-empty `/`-separated parts of the path; `PathTokenCountIsSegments` ties it to the segment starts |
| UrlFeatures.PathTokenCountIsSegments | backend/utils.py:37 | the number of non-empty `/`-separated parts of the path equals the number of positions where a segment starts |
| UrlFeatures.ExtractFeatures | backend/utils.py:21-39 | the URL length is that of the stripped URL; the host length and entropy are those of the registered domain, falling back to the host; the word count is the number of listed words in the lowercased stripped URL, at most 8; `has_ip` holds iff the host is four digit groups; `@` is seen iff it is in the raw URL; the dot count is the number of dot-separated parts minus one; HTTPS iff the scheme is `https`; a shortener iff the host ends with a listed domain; an empty host gives no IP, no shortener and no dots; the path token count is the number of path segment starts |
| UrlFeatures.StripAtSign | backend/utils.py:22 | stripping never removes or adds an `@` |
| UrlFeatures.FourGroupsLookLikeIp | backend/utils.py:19 | any four digit groups of length 1 to 3 joined by dots look like an IP |
| UrlFeatures.ShortenerWithoutLabelBoundary | backend/utils.py:36 | the shortener test has no label boundary: `microsoft.co` ends with `t.co`; the empty host matches nothing |
| UrlFeatures.SuspiciousWordExample | backend/utils.py:34 | `http://secure-login-verify-account.com` holds exactly 4 of the 8 listed words |
| Heuristics.Increment | backend/app.py:59-69 | no rule adds more than 30 points |
| Heuristics.Clamp | backend/app.py:70 | `max(0, min(100, x))` is in [0,100], is the identity on [0,100] and gives 100 above it |
| Heuristics.HeuristicScore | backend/app.py:70 | the heuristic score is always in [0,100] |
| Heuristics.Message | backend/app.py:61-69 | the message each rule appends; the word rule's carries the count (`WordMessageCarriesCount`), and messages of different rules differ (`MessagesDistinct`) |
| Heuristics.Signals | backend/app.py:59-71 | the messages of the firing rules in table order; a rule's message is present exactly when it fires (`SignalIffFires`), at most seven (`SignalCount`) |
| Heuristics.HeuristicScoreAndSignals | backend/app.py:59-71 | the seven ifs in source order compute exactly the clamped sum of the rule table and its fired messages in table order |
| Heuristics.RawScoreBound | backend/app.py:59-70 | the raw sum is at most 30+25+20+30+10+8+5 = 128, and it reaches 128 when every rule fires with at least three words |
| Heuristics.RawScoreMonotone | backend/app.py:59-69 | a table whose every rule contributes at least as much gives at least as large a sum |
| Heuristics.ScoreMonotone | backend/app.py:59-70 | if no rule contributes less for g than for f, then g's score is at least f's |
| Heuristics.SwitchOn | backend/app.py:61-69 | the feature record with one rule's condition switched on and the rest unchanged makes that rule fire |
| Heuristics.SwitchOnNeverLowers | backend/app.py:59-70 | switching on any one rule's condition never lowers the score |
| Heuristics.MoreWordsNeverLower | backend/app.py:64-66 | more suspicious words never lower the score |
| Heuristics.FiredMessagesCount | backend/app.py:59-69 | the number of messages equals the number of firing rules |
| Heuristics.SignalCount | backend/app.py:59-71 | there are never more than seven signals, one per firing rule |
| Heuristics.MessagesDistinct | backend/app.py:61-69 | the messages of two different rules always differ |
| Heuristics.SignalIffFires | backend/app.py:59-71 | each rule's message is among the signals exactly when its condition holds |
| Heuristics.WordMessageCarriesCount | backend/app.py:65-66 | the word message is the decimal count followed by " suspicious word(s)", and the count reads back from it |
| Heuristics.WordIncrement | backend/app.py:64-66 | the word rule adds 12 per word up to 30: 12, 24, then 30 from three words on |
| Fusion.Blend | backend/app.py:76 | `round(0.6h + 0.4m)` is the integer within half a point of 0.6h + 0.4m, and it lies between h and m |
| Fusion.BlendIsNearest | backend/app.py:76 | that integer is unique, so there is never a tie to round |
| Fusion.CombineScores | backend/app.py:73-77 | without a classifier score the heuristic score is returned unchanged; with one the result is in [0,100], and for in-range inputs it is the blend, which lies between the two scores |
| Fusion.CombineExamples | backend/app.py:73-77 | a certain-phishing classifier lifts a zero heuristic to 40; a certain-benign one pulls 100 down to 60; both are Medium |
| Fusion.AdviceFor | backend/app.py:115 | the advice tier of a final score; its exact boundaries are `AdviceTiers` |
| Fusion.AdviceText | backend/app.py:115 | the text the handler returns for each tier |
| Fusion.AdviceTextDistinct | backend/app.py:115 | the three advice texts are pairwise different, so the text identifies the tier |
| Fusion.AdviceTiers | backend/app.py:115 | High iff the score is at least 70, Medium iff it is in [40,70), Low iff it is below 40 |
| Fusion.AdviceMonotone | backend/app.py:115 | a higher score never gets a milder advice |
| Redirects.HopsOf | backend/utils.py:46-47 | one status hop per response, with that response's status and URL, in order |
| Redirects.RecordedCount | backend/utils.py:46-49 | no more hops than responses, and at least one when the history is non-empty |
| Redirects.Trace | backend/utils.py:41-53 | the closed-form trace: a single error hop on failure, otherwise the first `RecordedCount` history responses and then the final response |
| Redirects.TraceRedirects | backend/utils.py:41-53 | the loop with its early break records exactly the trace function: the first max(max_hops,1) history responses (all of them when fewer), then the final response; or a single error hop |
| Redirects.FailureIsOneErrorHop | backend/utils.py:51-52 | a transport failure gives exactly one hop, carrying only the error |
| Redirects.SuccessShape | backend/utils.py:44-50 | on success the trace ends with the final response, and what comes before it is the start of the history, in order |
| Redirects.DirectResponse | backend/utils.py:45-50 | a response with no redirect gives a one-hop trace |
| Redirects.TraceBound | backend/utils.py:41-53 | the trace never holds more than max(max_hops,1) + 1 hops, whatever the chain |
| Redirects.LongChainTruncated | backend/utils.py:46-49 | a chain at least as long as the cap is truncated to exactly max(max_hops,1) intermediate hops |
| Redirects.ZeroCapKeepsOneHop | backend/utils.py:47-49 | with `max_hops` 0 one intermediate hop is still recorded, because the check comes after the append |
| Attachments.MatchedExt | backend/app.py:142-145 | each matched extension is a listed one that ends the name, and there are no more matches than listed extensions |
| Attachments.MatchedExtExact | backend/app.py:142-145 | an extension is matched exactly when it is listed and ends the name, in both directions |
| Attachments.RawAttachmentScore | backend/app.py:141-149 | 40 per matched extension, plus 10 for a file over 50 MiB, plus 10 for a name containing "invoice" or "payment" |
| Attachments.AttachmentSignals | backend/app.py:141-149 | one `suspicious_ext:` signal per matched extension in list order, then `large_file`, then `phishy_filename` |
| Attachments.AdviceFor | backend/app.py:151 | "don't open" from a score of 50 on, "caution" below; `DontOpenIff` says when that happens |
| Attachments.AttachmentScore | backend/app.py:150 | the attachment score is in [0,100] |
| Attachments.ScanAttachment | backend/app.py:138-151 | the loop and the two ifs compute exactly the lowercased name, the capped score of the table, its signals in order and the advice |
| Attachments.ExtensionsSuffixFree | backend/app.py:142 | no listed extension ends another one |
| Attachments.DottedSuffix | backend/app.py:142-144 | of two extensions that are a dot followed by dot-free text, one ends the other only when they are equal |
| Attachments.AtMostOneMatch | backend/app.py:143-145 | over a suffix-free list, at most one extension matches a name |
| Attachments.AttachmentScoreBound | backend/app.py:141-150 | at most one extension signal fires, the raw score is at most 60, and the cap at 100 never changes it |
| Attachments.DontOpenIff | backend/app.py:141-151 | "don't open" exactly when an extension matches and the file is also large or has a phishy name |
| Scan.ScanUrl | backend/app.py:108-115 | the handler's scoring steps: heuristic score and signals of the features, a trace of at most 7 hops with a cap of 6, a final score in [0,100] that equals the heuristic score without a classifier score, and the advice tier and advice text of the final score |
| Scan.IpUrlFeatures | backend/utils.py:21-39 | `http://192.168.1.5/verify` has an IP host, 25 characters, one suspicious word, no `@`, no shortener and no HTTPS; with `Scan.IpWordNoHttpsScore` it scores 47 |
| Scan.IpWordNoHttpsScore | backend/app.py:59-71 | an IP host, one word and no HTTPS, with nothing else firing, scores 47 with three signals in table order |

## Left out

- The Flask routes, request and JSON handling, CORS, the SQLite tables and inserts, and logging are left out. They are I/O. The empty-URL 400 response is part of that.
- The classifier (`SmallModelFromFiles`, its payload mapping and fallback) is left out. It is foreign code, so its probability is an input.
- `ml_prob * 100` rounded to an integer is left out. It is floating point. `Fusion.CombineScores` takes the integer `ml_score`, and the blend of two integers is exact.
- `Fusion.CombineScores`: the blend is stated for scores in [0,100] only. Outside that range only the clamp is stated.
- `simple_entropy`'s Shannon sum is left out. It uses floating-point logarithms, so it is a function parameter, and floats are `real`.
- `urlparse` and `tldextract` are left out. They are library code. Their results (scheme, host name, path, registered domain) are inputs to `UrlFeatures.ExtractFeatures`.
- The `ValueError` that `urlparse` raises on a malformed netloc (an unbalanced `[`, as in `http://[abc/x`) is left out. Neither `extract_features` nor the scan handler catches it. The model assumes `urlparse` succeeds, so this error path is not modelled.
- The HTTP session, its timeout and its own redirect limit are left out. They are network I/O. Its outcome is the `Transport` input. `url` and `timeout` are therefore not parameters of `Redirects.TraceRedirects`.
- `str(e)` of a transport exception is left out. It is the `message` of `TransportFailure`.
- Non-ASCII behaviour is left out: Unicode `lower`, Unicode digits for `\d` and Unicode whitespace. Every operation is modelled on ASCII.
- The MIME type of an attachment is left out. The handler only lowercases and echoes it, and it takes no part in the score.
- `int(data.get("filesize") or 0)` failing on non-numeric text is left out. It is request parsing, so the file size is an integer input.
- The advice strings of the attachment handler are the `AttachmentAdvice` values `DontOpen` and `Caution`.
- The frontend and browser-extension JavaScript, the training script and the CSV/SQL sync are not part of this model.
- The parameter name `max_hops` suggests at most `max_hops` + 1 hops. The code appends before it checks, so with `max_hops` of 0 or less one intermediate hop is still recorded. The model follows the code: the bound is max(`max_hops`, 1) + 1 (`Redirects.TraceBound`, `Redirects.ZeroCapKeepsOneHop`).
