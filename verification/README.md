# A verified model of phisherslapper

phisherslapper compares a suspect domain with a known one and gives a score, a
verdict and a relationship. This project models, in Dafny, the parts of it that
decide those answers, and proves what they promise.

Everything asked of the outside world is an argument with a fixed answer: the
TXT, address, MX and NS lookups, the certificates, the hosts file, RDAP dates
and registrars, and Go's address parsers. Strings are sequences of characters
with ASCII case and ASCII white space, which is all a valid domain name holds.

| file | part of the program |
|---|---|
| Text.dfy | the operations of Go's strings package that are used, and their laws |
| SpfRecord.dfy | the v=spf1 parser, a printer, and their round trip |
| Spf.dfy | what an SPF record means: a big-step relation with no budget, indexed by the queries it makes |
| SpfEvaluation.dfy | the evaluator with its shared lookup budget, proved against that relation |
| SpfTheorems.dfy | budget, chains of authority, redirects, cycles |
| SpfDepartures.dfy | record selection, the qualifier of an include, and the prefix length of an a or mx term, against sections 4.5 and 5.2 to 5.4 of RFC 7208 |
| SpfLimits.dfy | the lookup budget against the documented cap on terms |
| EditDistance.dfy, Confusables.dfy, Lookalike.dfy | label similarity |
| Sorting.dfy, Certs.dfy | comparison of TLS identities, SAN coverage |
| Resolvers.dfy, Voting.dfy, Probes.dfy | the vote of the resolvers, and the goroutines that collect it |
| Hosts.dfy, Domains.dfy | hosts-file lookup, domain syntax and normal form |
| Scoring.dfy, ScoreTheorems.dfy | the point system |
| Pipeline.dfy | the path from two arguments to a scored pair |

`dafny verify dfyconfig.toml` checks the whole project.

Loop bodies that hold a switch or a second loop, and the stages of a long
function, are methods of their own (`FetchRecord`, `EvalTerm`, `EvalInclude` and
`FollowRedirect`, `ScanHosts`, `Tally`, `LiveSides`, `ScanLine`, `Preflight`,
`Examine`), so that each has a short contract.

## Where the code and its documentation part

The model follows the code.

- The SPF evaluator never reads the qualifier of an include. By section 5.2 of
  RFC 7208 `-include:x` would deny what x passes; the code authorizes it
  (`SpfDepartures.IncludeQualifierMatters`). On any set of records that name each
  other only, cyclic or not, the two readings agree everywhere if and only if no
  include with another qualifier than `+` decides anywhere
  (`SpfDepartures.ZoneReadingsAgree`).
- The limit of ten is documented as a cap on include, a, mx and redirect terms
  (internal/dns/spf.go:26-28). The code also charges every mail host of an mx
  term, so a record with a single mx term can exhaust it
  (`SpfLimits.OneTermExhaustsLimit`). What is charged beyond the terms is one
  lookup for each mail host asked (`SpfLimits.ChargeOfEvaluation`), and the two
  limits decide an evaluation differently if and only if its terms are within
  the limit and its terms and mail hosts together are not
  (`SpfLimits.LimitsDiffer`).
- The prefix length of an a or mx term is given to parsers of addresses and
  CIDRs. These refuse a bare number, and one behind a slash as in the dual form
  `a:h/24//64`, so it makes no network and whole addresses are compared: the
  answers are those of sections 5.3 and 5.4 of RFC 7208 if and only if the
  length is the full one (`SpfDepartures.PrefixLengthIgnored`,
  `SpfDepartures.DualFormMakesNoNet`). A third part that is itself a CIDR, as in
  `a:h//2001:db8::/32`, does act as a network for an IPv6 suspect
  (`SpfDepartures.NetworkMatchIsNotExact`); whole addresses are compared if and
  only if there is no such network around the suspect
  (`SpfDepartures.WholeAddressUnlessNet`). A run looks up IPv4 addresses only, so
  it always compares whole addresses (`Pipeline.RunComparesWholeAddresses`). In
  `a/24` and `mx/24` the length is read as the host
  (`SpfDepartures.PrefixLengthReadAsHost`).
- Two TXT strings that begin with the tag are a failure even if the tag of one
  goes on, as in v=spf10. Section 4.5 of RFC 7208 discards that one
  (`SpfDepartures.SelectionsAgree`).
- `nsSetsEqual` says it compares sets; it compares multisets
  (`Resolvers.NotEqualityOfSets`). On a given list it decides equality of sets
  with every duplicate-free list if and only if the list is duplicate-free
  itself (`Resolvers.SetsEqualWhenDistinct`), and with every list whatever if
  and only if it is empty (`Resolvers.SetsEqualWhenEmpty`).
- The scale gives 50 points for a suppression split of the suspect. A domain
  with a suppression split does not pass the liveness gate, so in a scored run
  those points can only come from a name server split (`Probes.PastTheGate`).
- The fold of homoglyphs sees through vv for w only after an even run of v
  (`Confusables.DisguiseInvisible` gives both directions).

## Model

| member | source | states |
|---|---|---|
| `SpfEvaluation.SpfEval.EvalDomain` | internal/dns/spf.go:154-175 | With a budget b >= 0: either the run is a complete derivation of the budget-free relation, with exactly one lookup spent for every query after the first; or a spend was refused, the budget is -1, the result is not ok, and the queries asked are the first 1 + b of an evaluation that has another to ask. Terminates on every record graph, cyclic or not. |
| `SpfEvaluation.SpfEval.EvalMechanisms` | internal/dns/spf.go:181-235 | The same for the terms of one record: first match decides, redirect only at the end, with the budget shared across the recursion. |
| `SpfEvaluation.SpfEval.EvalTerm` | internal/dns/spf.go:184-227 | One turn of the loop ends the evaluation, or passes, exactly as the relation says, at one lookup per query; after a refused spend the queries asked are a beginning of the term. |
| `SpfEvaluation.SpfEval.FollowRedirect` | internal/dns/spf.go:228-234 | A record without a match denies if it has no redirect, means its redirect if it has one, at the price of one lookup, and is inconclusive if it has several. |
| `SpfEvaluation.SpfEval.EvalInclude` | internal/dns/spf.go:209-220 | An include answers with the included record when that authorizes or is inconclusive, and is passed over when it denies. |
| `SpfEvaluation.SpfEval.EvalAddrMech` | internal/dns/spf.go:240-284 | An a or mx term asks the queries of its unbudgeted meaning as far as the budget goes and, if it goes far enough, says whether the suspect is covered; a failed lookup is inconclusive. |
| `SpfEvaluation.SpfEval.ScanHosts` | internal/dns/spf.go:270-281 | Each MX host costs one lookup of the shared budget; a host that cannot be looked up is skipped. |
| `SpfEvaluation.SpfEval.Covered` | internal/dns/spf.go:289-308 | True exactly when some address of the suspect's family matches: inside the network along with the suspect, or equal to the suspect. |
| `SpfEvaluation.SpfEval.SelectRecords` | internal/dns/spf.go:161-166 | Keeps the TXT strings that begin with v=spf1 after trimming and lower-casing. |
| `SpfEvaluation.SpfEval.Spend` | internal/dns/spf.go:354-357 | Deducts from the shared budget and grants exactly while it stays non-negative; no lookup may follow a refusal (every lookup requires a non-negative budget). |
| `SpfTheorems.CheckSPFAuthority` | internal/dns/spf.go:54-60 | For every oracle at most eleven queries; the result is ok with r exactly when a derivation of r with at most eleven queries exists; a missing suspect address is not ok. |
| `Spf.YieldsOnce` | internal/dns/spf.go:154-235 | Without a budget a domain has at most one answer, reached by one sequence of queries. |
| `Spf.BeginsBeforeEnd` | internal/dns/spf.go:154-235 | The beginnings of an evaluation, defined without reference to its end and of any length on a cycle, are proper prefixes of the complete one if there is one. |
| `Spf.BeginsOnce` | internal/dns/spf.go:154-235 | Of two beginnings of one evaluation the shorter is a prefix of the longer. |
| `Spf.PublishedIsEvaluated` | internal/dns/spf.go:157-174 | A domain whose only TXT string is a printed record is evaluated by the terms that were printed. |
| `Spf.ScanFindsFirst` | internal/dns/spf.go:270-282 | The MX scan succeeds exactly when some host covers the suspect and asks the hosts in order up to the first that does. |
| `Spf.RecordIsTheOnlyOne` | internal/dns/spf.go:157-174 | A domain has terms exactly when exactly one of its TXT strings is an SPF record and that one parses; two records are a failure. |
| `Spf.SpfRecordIs` | internal/dns/spf.go:161-166 | A TXT string counts as an SPF record if and only if its first word begins with v=spf1 in any letter case. |
| `Spf.NetMatchIsExact` | internal/dns/spf.go:188-199 | An ip4 or ip6 term asks nothing and matches if and only if the suspect is of the family and has the leading bits of the CIDR its value writes, or, without a slash, is the address its value writes. |
| `Spf.CoverSpellsTerm` | internal/dns/spf.go:345-351 | The cover text of an ip4, ip6, a or mx term is a spelling of that term. |
| `SpfTheorems.PublishedNetDecides` | internal/dns/spf.go:51-200 | From the text: a domain that publishes an ip4 or ip6 term and then -all authorizes a suspect if and only if the term has + and writes a network or address that holds the suspect; the answer, with its cover, is settled within the limit. |
| `SpfTheorems.BudgetDecidesWhether` | internal/dns/spf.go:154-235 | A run with budget b answers r exactly when r has a derivation of at most 1 + b queries. |
| `SpfTheorems.LargerBudgetSameAnswer` | internal/dns/spf.go:154-235 | With any larger budget the answer, the queries and their cost stay the same. |
| `SpfTheorems.CutShortIsPrefix` | internal/dns/spf.go:154-235 | Of any two runs, completed or refused, on cyclic records or not, the one with the smaller budget asks the first queries of the other; if it completes, so does the other. |
| `SpfTheorems.RefusedWhenMoreToAsk` | internal/dns/spf.go:154-235 | A run with budget b is refused a lookup if and only if the evaluation has more to ask after 1 + b queries. |
| `SpfTheorems.AuthorityIsAChain` | internal/dns/spf.go:177-235 | Some derivation authorizes the suspect if and only if a chain of includes (whatever their qualifier) and lone redirects of matchless records leads from the target to a record whose first matching term is a + term that covers the address. |
| `SpfTheorems.AuthorizedWithinLimit` | internal/dns/spf.go:26-28 | Within the limit of ten lookups that chain has at most ten links. |
| `SpfTheorems.LeadNeedsAnswer` | internal/dns/spf.go:209-234 | A record that reaches an include or its redirect has an answer only if the named record has one, with strictly fewer queries. |
| `SpfTheorems.CycleNeverAnswers` | internal/dns/spf.go:154-235 | If every record of a set leads back into the set, no record of the set has an answer. |
| `SpfTheorems.CycleIsInconclusive` | internal/dns/spf.go:154-235 | On such a set every run, with any budget, exhausts it and is not ok. |
| `SpfTheorems.SelfReferenceIsInconclusive` | internal/dns/spf.go:209-234 | A record that starts by including itself, or only redirects to itself, exhausts every budget. |
| `SpfTheorems.RedirectsLast` | internal/dns/spf.go:221-234 | A record means the same with all its redirects moved to the end. |
| `SpfTheorems.RedirectPositionIrrelevant` | internal/dns/spf.go:221-234 | Records that differ only in where the redirects stand mean the same (section 6.1 of RFC 7208). |
| `SpfTheorems.RedirectsWithoutInfluence` | internal/dns/spf.go:228-234 | If a term of the record never passes (a match, a failed lookup, an included answer other than denial, or all), the record means the same as any other with the same terms besides redirects, whatever redirects either has and wherever they stand. |
| `SpfTheorems.AllSilencesRedirects` | internal/dns/spf.go:186-187 | So a record that contains all means the same with any redirects or none: it never follows one. |
| `SpfTheorems.NoMatchMeansRedirect` | internal/dns/spf.go:228-234 | The possible answers of a record all of whose terms pass are exactly those of its redirect if it has one, denial alone if it has none, and no answer alone if it has several. |
| `SpfDepartures.IncludeQualifierIgnored` | internal/dns/spf.go:209-220 | Changing the qualifier of an include changes nothing, unlike section 5.2 of RFC 7208. |
| `SpfDepartures.IncludeQualifierMatters` | internal/dns/spf.go:209-220 | Given any domain that publishes an include with qualifier -, ~ or ? of a domain that publishes all, the code authorizes and section 5.2 denies. |
| `SpfDepartures.ZoneReadingsAgree` | internal/dns/spf.go:154-235 | For every set of records that name each other only, cyclic or not: the code and section 5.2, read recursively, have the same answers and queries on all of them if and only if no evaluation of one of them reaches an include of an authorizing record with another qualifier than +. |
| `SpfDepartures.IncludeReadingsAgree` | internal/dns/spf.go:209-220 | The step behind it: agreement on the records that one record names makes agreement on that record equivalent to its having no such include. |
| `SpfDepartures.ReadingsMeetAgain` | internal/dns/spf.go:209-220 | Two levels above a record that the code authorizes and section 5.2 denies after the same queries, the two readings can coincide again in answer and queries. |
| `SpfDepartures.PlusOnlyAgrees` | internal/dns/spf.go:154-235 | On records whose includes all carry + and lead to each other only, cyclic or not, the code has exactly the derivations of section 5.2. |
| `SpfDepartures.AMatchIsExact` | internal/dns/spf.go:253-261 | Unless its value holds a network around the suspect, an a term matches if and only if the suspect is itself an address of the term's host (and equal to the bare address, if any, given in place of a prefix length), for both families. |
| `SpfDepartures.MxMatchIsExact` | internal/dns/spf.go:262-282 | The same of an mx term: if and only if the suspect is an address of a mail host of the term's host. |
| `SpfDepartures.AddrTermInconclusive` | internal/dns/spf.go:253-269 | An a or mx term is inconclusive if and only if the lookup of its own host fails, which is its first query. |
| `SpfDepartures.WholeAddressUnlessNet` | internal/dns/spf.go:287-322 | Every match is an equality of whole addresses if and only if the value does not name a network, shorter than an address, around the suspect. |
| `SpfDepartures.PlainPartIsNoNet` | internal/dns/spf.go:310-343 | There is never such a network for an IPv4 suspect, nor for an IPv6 suspect if the third part has no slash of its own. |
| `SpfDepartures.NetworkMatchIsNotExact` | internal/dns/spf.go:310-331 | For any host and CIDR as the third part, a suspect in the CIDR matches although the host has only another address in it. |
| `SpfDepartures.PrefixLengthIgnored` | internal/dns/spf.go:287-343 | If the value makes no network, matching agrees for all addresses of the host with sharing the first n bits (sections 5.3 and 5.4 of RFC 7208) if and only if n is the full length. |
| `SpfDepartures.DualFormMakesNoNet` | internal/dns/spf.go:312-343 | A value h/n4//n6 makes no network for either family, if n4 is no address and "/n6" no CIDR to Go's parsers. |
| `SpfDepartures.SingleFormMakesNoNet` | internal/dns/spf.go:312-343 | Nor does h/n for an IPv4 suspect, or h//n for an IPv6 one, if n is no address. |
| `SpfDepartures.PrefixLengthReadAsHost` | internal/dns/spf.go:129-132 | In a/N and mx/N without a domain, N is read as the host to look up. |
| `SpfDepartures.SelectionsAgree` | internal/dns/spf.go:161-169 | The code selects the record that section 4.5 of RFC 7208 selects unless there is one and a TXT string with a longer tag, such as v=spf10, stands beside it. |
| `SpfLimits.ChargeOfEvaluation` | internal/dns/spf.go:209-285 | Every complete evaluation has exactly one count of include, a, mx and redirect terms and of mail hosts asked; the queries after the first are the two together, so the charge is the number of terms if and only if no mail host is asked. |
| `SpfLimits.LimitsDiffer` | internal/dns/spf.go:26-28 | On every evaluation the code settles the matter if and only if terms and mail hosts together are at most ten, the documented cap if and only if the terms are; they differ exactly between the two. |
| `SpfLimits.SettledByTermsToo` | internal/dns/spf.go:26-28 | What the code settles, the documented cap on terms settles with the same result. |
| `SpfLimits.LimitsAgreeWithoutMx` | internal/dns/spf.go:26-28 | On any records that name each other only and hold no mx term the two limits decide alike. |
| `SpfLimits.OneTermExhaustsLimit` | internal/dns/spf.go:262-282 | For any domain that publishes a lone mx term with ten or more mail hosts without an address: the evaluation has one term and denies, yet the code settles nothing. |
| `SpfRecord.ParseSPFRecord` | internal/dns/spf.go:105-150 | The loop returns the terms of the words in order, or fails, as the word-by-word specification says. |
| `SpfRecord.RecordRoundTrip` | internal/dns/spf.go:105-150 | Parsing a printed list of all/ip4/ip6/a/mx/include/redirect terms with any qualifiers gives the list back. |
| `SpfRecord.ParserImage` | internal/dns/spf.go:105-150 | Such a list comes out of the parser for some record if and only if every value is free of white space and "%{", all has no value, and include and redirect have one. |
| `SpfRecord.WordIs` | internal/dns/spf.go:111-147 | A word becomes a given all, ip4, ip6, a, mx, include or redirect term if and only if it holds no "%{" and spells the term: qualifier (+ may be left out), name, separator, value. |
| `SpfRecord.RefusedIs` | internal/dns/spf.go:112-146 | A word refuses the record if and only if it holds "%{", is only a qualifier, or includes or redirects to no name. |
| `SpfRecord.OtherWord` | internal/dns/spf.go:137-143 | Any other word is dropped if it has an equals sign, and else becomes a term that is passed over, exists by its prefix and unknown otherwise. |
| `SpfRecord.RecordRefused` | internal/dns/spf.go:105-149 | A text is no record if and only if its first word is not v=spf1 in some letter case or a later word refuses it. |
| `EditDistance.Levenshtein` | internal/score/score.go:343-362 | The two-row loop computes the table-cell recurrence for the whole strings. |
| `EditDistance.DistanceIsShortest` | internal/score/score.go:342-362 | The distance is the length of a sequence of single-character insertions, deletions and substitutions between the strings, and no such sequence is shorter. |
| `EditDistance.Symmetric` | internal/score/score.go:342-362 | The distance is symmetric. |
| `EditDistance.ZeroOnlyOnEquals` | internal/score/score.go:342-362 | The distance is zero exactly on equal strings. |
| `EditDistance.Triangle` | internal/score/score.go:342-362 | The triangle inequality. |
| `EditDistance.Min3` | internal/score/score.go:406-417 | The least of three numbers. |
| `Confusables.NormalizeConfusables` | internal/score/score.go:326-340 | In whatever order the map is visited, the result is the one left-to-right rewrite of the lower-cased string. |
| `Confusables.OrderIrrelevant` | internal/score/score.go:336-338 | Any sequence of the replacements, with or without repetitions, equals one pass with the set of rules it names. |
| `Confusables.NoPatternRemains` | internal/score/score.go:324-340 | The result contains none of the patterns. |
| `Confusables.NormalizeIdempotent` | internal/score/score.go:324-340 | Normalizing twice changes nothing more. |
| `Confusables.DisguiseInvisible` | internal/score/score.go:328-335 | Writing rn for m, 0 for o, 1 for l, 5 for s or 2 for z anywhere leaves the normal form unchanged; vv for w does so if and only if an even run of v precedes it. |
| `Confusables.DisguisesInvisible` | internal/score/score.go:324-340 | Any number of such substitutions, made or undone, leaves the normal form unchanged. |
| `Confusables.Homoglyphs` | internal/score/score.go:328-335 | The table written out: rn and m, 0 and o, 1 and l, 5 and s, 2 and z are told apart nowhere, vv and w only after an odd run of v. |
| `Confusables.UnchangedIsGenuine` | internal/score/score.go:324-340 | Exactly the strings without 0, 1, 2, 5, rn and vv are left as they are but for letter case. |
| `Lookalike.SimilarIs` | internal/score/score.go:300-322 | Two labels are similar if and only if neither is empty and their normal forms are the same, or both have four characters or more and a sequence of at most two edits connects them, or both have five or more and one stands inside the other. |
| `Lookalike.SimilarSymmetric` | internal/score/score.go:300-322 | Similarity of labels is symmetric. |
| `Lookalike.RootLabelIs` | internal/score/score.go:286-294 | The root label is the first of the labels between dots, trimmed and in lower case. |
| `Lookalike.DisguisedIsSimilar` | internal/score/score.go:300-322 | Two labels connected by any number of such substitutions are similar, whatever their edit distance. |
| `Certs.SansEqual` | internal/cert/cert.go:231-250 | Normalize, sort and compare decides equality of the multisets of trimmed, lower-cased names. |
| `Certs.ComparePaths` | internal/cert/cert.go:207-228 | Complete exactly when both certificates are there; a match exactly when nothing differs; the differences listed are exactly those there are. |
| `Certs.MatchIs` | internal/cert/cert.go:207-250 | A match is: both certificates there, the same issuer and class, the same multiset of trimmed, lower-cased names, and the same fingerprint unless one is missing. |
| `Certs.ComparisonSymmetric` | internal/cert/cert.go:207-228 | Completeness and match do not depend on which side is which. |
| `Certs.ComparisonReflexive` | internal/cert/cert.go:207-228 | An identity never differs from itself. |
| `Certs.SanCovers` | internal/score/score.go:465-485 | The loop over the comma-separated field finds coverage exactly when some entry covers the domain. |
| `Certs.FieldCoversByLabels` | internal/score/score.go:465-485 | What that is: the trimmed, lower-cased name is not empty, and some entry, neither empty nor unknown, is that name or a wildcard whose parent's labels are the last labels of the name. |
| `Certs.CoversByLabels` | internal/score/score.go:470-482 | By form of the entry: a wildcard covers itself, its parent and everything below it; any other entry only itself; an empty or unknown one nothing. |
| `Certs.LongerLabelNotCovered` | internal/score/score.go:478-481 | A wildcard does not cover a name in which the first label of its parent is a mere ending of a longer label. |
| `Certs.DisplayedCoverage` | internal/cert/cert.go:194-199 | For comma-free SANs, coverage read from the joined display string is coverage by an entry of the list; the Unknown shown for an empty list covers nothing. |
| `Sorting.SortIsCanonical` | internal/cert/cert.go:240 | Two lists sort alike exactly when they are equal as multisets. |
| `Resolvers.NsSetsEqual` | internal/dns/resolvers.go:190-205 | Decides equality of multisets by counting. |
| `Resolvers.NotEqualityOfSets` | internal/dns/resolvers.go:189-205 | Two lists that are equal as sets, and of equal length, yet not equal to this comparison, although its comment says sets. |
| `Resolvers.ComparisonOfSets` | internal/dns/resolvers.go:189-205 | Lists equal to the comparison are equal as sets; of two lists equal as sets, the second free of duplicates, the comparison finds equality if and only if the first is too. |
| `Resolvers.SetsEqualWhenDistinct` | internal/dns/resolvers.go:189-205 | For every list: the comparison decides equality of sets with all duplicate-free lists if and only if the list is duplicate-free. |
| `Resolvers.SetsEqualWhenEmpty` | internal/dns/resolvers.go:189-205 | For every list: the comparison decides equality of sets with all lists if and only if the list is empty. |
| `Resolvers.OutcomeIs` | internal/dns/resolvers.go:168-182 | A lookup is live if and only if it returns an address, NXDOMAIN if and only if it fails because the name does not exist, and abstains otherwise. |
| `Resolvers.NameServerIs` | internal/dns/resolvers.go:184-187 | The normal form of a name server is a given plain name if and only if the server is that name up to letter case, white space around and one dot at the end. |
| `Resolvers.Tally` | internal/dns/resolvers.go:212-230 | The loop over the outcomes collects the system vote, the public names and the name server votes in order. |
| `Resolvers.DetectSplit` | internal/dns/resolvers.go:211-255 | Kind and text of the split are those of the specification over the collected votes. |
| `Voting.VotesDifferAnyPair` | internal/dns/resolvers.go:247-253 | Some vote differs from the first exactly when some two votes differ, so comparing with vote 0 is enough. |
| `Voting.SplitPermuted` | internal/dns/resolvers.go:211-255 | With at most one system entry, kind and text are the same for every order of the outcomes. |
| `Voting.SplitIgnoresInconclusive` | internal/dns/resolvers.go:211-255 | Removing inconclusive outcomes changes neither kind nor text. |
| `Voting.SplitIsConflict` | internal/dns/resolvers.go:207-255 | A split is reported if and only if two conclusive outcomes conflict: one live and one NXDOMAIN, or two live with different name servers. |
| `Voting.SplitDirection` | internal/dns/resolvers.go:207-246 | Horizon exactly when the system resolver is live and a public one says NXDOMAIN; suppression exactly when a public one is live and the system resolver says NXDOMAIN, or abstains while another public one says so. |
| `Probes.Probe` | internal/dns/resolvers.go:116-131 | One goroutine computes the outcome of its resolver from the two lookups. |
| `Probes.AnswerIs` | internal/dns/resolvers.go:116-131 | In terms of the replies: live with the addresses returned, NXDOMAIN only for a name that does not exist, name servers only of a live answer. |
| `Probes.VotesByName` | internal/dns/resolvers.go:124-127 | Two lists of name servers are the same vote if and only if they are the same names, up to order, letter case, white space around and a final dot. |
| `Probes.CheckDomain` | internal/dns/resolvers.go:104-159 | The sequential run asks the system resolver and the two pinned ones, and gives the summary of their outcomes and the override of the hosts file. |
| `Probes.SystemSide` | internal/dns/resolvers.go:104-140 | The check is live on the system side if and only if the system resolver returns an address, and then has the addresses it returned. |
| `Probes.PublicSide` | internal/dns/resolvers.go:104-149 | The check is live on the public side if and only if 1.1.1.1 or 8.8.8.8 returns an address, and then has the addresses of the first of them that does. |
| `Probes.SplitOfReplies` | internal/dns/resolvers.go:101-255 | From the replies: horizon if and only if the system finds the domain and a pinned resolver says there is none; suppression if and only if a pinned one finds it and the system says there is none, or finds nothing while another pinned one says so. |
| `Probes.AnySplitOfReplies` | internal/dns/resolvers.go:101-255 | Some split is reported if and only if, of the three replies, one has an address and one says there is no such name, or two with an address list different name servers. |
| `Probes.DetailOfReplies` | internal/dns/resolvers.go:211-255 | The text names exactly the resolvers on each side of the split, sorted. |
| `Probes.HostsOfCheck` | internal/dns/resolvers.go:152-157 | The check has an override if and only if the hosts file can be read and maps the domain. |
| `Probes.LiveSides` | internal/dns/resolvers.go:136-149 | The loop finds liveness and addresses of both sides. |
| `Probes.Summarize` | internal/dns/resolvers.go:135-151 | Liveness, addresses and classification together make the domain check. |
| `Probes.FirstLivePublicWins` | internal/dns/resolvers.go:141-148 | The public address list is that of the first live public resolver. |
| `Probes.OneIsSystem` | internal/dns/resolvers.go:30-36 | The table that CheckDomain sets up from the pinned servers has exactly one entry named system, and its vote is the outcome of the system resolver. |
| `Probes.InterleavingIrrelevant` | internal/dns/resolvers.go:112-151 | In every interleaving of the goroutines, a result is computed from slots all written, and both equal those of the sequential run. |
| `Probes.InvAlways` | internal/dns/resolvers.go:112-133 | Every reachable state of the goroutines keeps the invariant: the wait group counts the running workers, and a worker past its write has its own outcome in its slot. |
| `Probes.AlwaysAStep` | internal/dns/resolvers.go:112-133 | Until there is a result some step can be taken: the wait never blocks for ever. |
| `Probes.RunsAreShort` | internal/dns/resolvers.go:112-133 | Every run has at most five steps for each worker and one more. |
| `Probes.PastTheGate` | internal/dns/resolvers.go:136-151 | When the system resolver is live the split is not a suppression, and only a name server split counts as tampering. |
| `Text.TrimSpaceExact` | internal/dns/hosts.go:43 | Trimming gives a string if and only if that string has no white space at either end and white space alone stands around it. |
| `Text.FieldsOfLaid` | internal/dns/hosts.go:52 | The fields of words laid out with white space of any kind and length are those words. |
| `Hosts.ParseHostsFile` | internal/dns/hosts.go:42-63 | The loops find the first mapping of the domain in file order. |
| `Hosts.ScanLine` | internal/dns/hosts.go:49-60 | One line maps the domain exactly when one of its names, after comment removal, is the domain. |
| `Hosts.LookupInPieces` | internal/dns/hosts.go:48-62 | For two pieces joined by a newline: the hit of the first piece, else that of the second. |
| `Hosts.ReadsWhatIsWritten` | internal/dns/hosts.go:38-63 | Parsing a file written from any mappings, comments and blank lines, with white space of any kind around address and names, returns the address of the first mapping for the domain and nothing if there is none. |
| `Hosts.CanonicalIs` | internal/dns/hosts.go:43-57 | Names are the same up to letter case, white space around and one dot at the end, and no further. |
| `Domains.PatternIsDomain` | internal/dns/dns.go:15 | The regular expression matches exactly the strings that split at dots into two or more labels of 1 to 63 letters, digits or inner hyphens (section 2.3.4 of RFC 1035, section 2.1 of RFC 1123). |
| `Domains.LabelIs` | internal/dns/dns.go:15 | A label is 1 to 63 of the characters a to z, 0 to 9 and hyphen, without a hyphen at either end. |
| `Domains.NormalizeDomain` | internal/dns/dns.go:19-32 | What is typed is always a decoration of the result, and the result is a given valid host if and only if what is typed is a decoration of that host: any letter case, white space around, an http or https scheme or both, one trailing dot, a port, a path or both. |
| `Domains.HostsAreFixed` | internal/dns/dns.go:19-32 | An accepted host is its own normal form. |
| `Domains.DecorationsRemoved` | internal/dns/dns.go:17-32 | An accepted host is recovered from each such decoration. |
| `Scoring.Score` | internal/score/score.go:109-225 | Score, findings in order, verdict, age flag and relationship are those of the specification. |
| `Scoring.Result.AddIdentity` | internal/score/score.go:124-174 | Age, downgrade and registrar findings are appended in order and their points added. |
| `Scoring.Result.AddPaths` | internal/score/score.go:176-210 | Tampering, hosts, redirection and network findings and the target's notes are appended in order; only the suspect's add points. |
| `Scoring.Result.Conclude` | internal/score/score.go:212-223 | Each verdict is given exactly on its band of scores and, below 40, by whether the pair is related; the closing findings name it. |
| `Scoring.Result.ScoreSame` | internal/score/score.go:112-122 | The same domain twice scores zero and only gathers notes. |
| `Scoring.Result.AddDnsNotes` | internal/score/score.go:229-240 | DNS notes add a finding and no points. |
| `Scoring.Result.AddPathNotes` | internal/score/score.go:245-255 | Path notes add findings and no points. |
| `ScoreTheorems.ScoreIsSumOfFindings` | internal/score/score.go:109-225 | The score is the sum of the points of the findings. |
| `ScoreTheorems.FindingsAreDue` | internal/score/score.go:109-259 | For every pair and every finding, with or without points: it is reported if and only if the fields of the two sides call for it, with the points of the published scale. |
| `ScoreTheorems.FindingsInOrder` | internal/score/score.go:124-223 | The findings on two different names are reported in one fixed order, each at most once. |
| `ScoreTheorems.PointsHaveReasons` | internal/score/score.go:126-210 | A finding with points is present exactly when the suspect's fields show the signal it names, against the target's class or registrar where it compares, with that signal's points. |
| `ScoreTheorems.AgeFlagIs` | internal/score/score.go:134-145 | The age flag is critical below 30 days and a warning from 30 to 89. |
| `ScoreTheorems.RelationshipIs` | internal/score/score.go:265-284 | The relationship is the first that holds: the same name, coverage by a certificate of either side, sender authority, similar root labels; unrelated if none does. |
| `ScoreTheorems.ScoreRange` | internal/score/score.go:109-225 | The score is a multiple of ten between 0 and 330. |
| `ScoreTheorems.AgePointsMonotone` | internal/score/score.go:422-431 | Age points grow with the tier and with company, and fall with endorsement. |
| `ScoreTheorems.ScoreMonotone` | internal/score/score.go:109-225 | Against one target the score never falls when the suspect gains a signal, gets younger or loses an endorsement. |
| `ScoreTheorems.TargetViewIrrelevant` | internal/score/score.go:176-210 | What is seen of DNS, paths, hosts file and networks on the target's side changes neither score, verdict nor relationship. |
| `ScoreTheorems.VerdictBands` | internal/score/score.go:212-223 | Each verdict has exactly its band of scores; legitimate means below 15 and related, and an unrelated pair below 40 has no other verdict than unrelated. |
| `ScoreTheorems.AgeRows` | internal/score/score.go:133-145 | For every pair, what the known age of the suspect adds to the whole score: 80, 40, 40, 20 by tier and company, half of that when endorsed, nothing from 90 days on. |
| `ScoreTheorems.DisguiseIsRelated` | internal/score/score.go:270-284 | A homoglyph disguise of the target's root label is never classified as unrelated. |
| `Pipeline.ProbePaths` | cmd/phisherslapper/main.go:102-126 | The shared and the split dispatch both give the certificates at the two addresses. |
| `Pipeline.FetchDomain` | cmd/phisherslapper/main.go:74-203 | Each scored field is assembled from the probes as stated, with Unknown for what is missing. |
| `Pipeline.FetchedKnows` | internal/score/score.go:81-101 | A fetched domain passes the data gate if and only if it has an age and a served certificate whose issuer or class is neither empty nor Unknown. |
| `Pipeline.SameEndpointNeverDiverges` | cmd/phisherslapper/main.go:102-125 | A domain whose two paths end at the same address has neither redirection nor network evidence, so never those points. |
| `Pipeline.CoverageIsOfCertificate` | cmd/phisherslapper/main.go:180-197 | Coverage by the displayed SAN field of a fetched domain is coverage by the SANs of its certificate. |
| `Pipeline.Endorse` | cmd/phisherslapper/main.go:362-373 | The suspect is marked as checked if and only if the target's policy has a derivation for the suspect's own address (the public one if there is one) within the limit, and as authorized if and only if that derivation authorizes; then a chain of at most ten includes and redirects leads to a record that passes it. |
| `Pipeline.SuspectAddressIs` | cmd/phisherslapper/main.go:362-367 | The address asked about is the first one of the first pinned resolver that finds the suspect, else the first of the system resolver. |
| `Pipeline.Preflight` | cmd/phisherslapper/main.go:303-326 | A run goes on past a name if and only if the system resolver finds it; otherwise it stops as suppressed if a pinned resolver finds it, and as dark if none does. |
| `Pipeline.GateLeaves` | cmd/phisherslapper/main.go:316-326 | A domain past the gate carries split kind none, horizon or name servers, and is tampered only in the last case. |
| `Pipeline.Examine` | cmd/phisherslapper/main.go:335-397 | Behind the gate a score is given if and only if age and certificate of both names are known, and it is then that of the data as fetched, with the sender authority of the suspect's own address. |
| `Pipeline.Run` | cmd/phisherslapper/main.go:274-414 | For any arguments and network the ending says why: bad syntax of the first or second name, the first name the system resolver does not find and whether a public one does, unknown data, and a score if and only if both names are valid, found and known. A score is that of both domains as fetched, every field included, with the sender authority of the suspect's own address. |
| `Pipeline.OneEnding` | cmd/phisherslapper/main.go:274-414 | That description leaves exactly one ending, down to every field of the scored data. |
| `Pipeline.SeenAlikeScoresIdentity` | cmd/phisherslapper/main.go:274-414 | In a scored run, a suspect whose two endpoints coincide, without a hosts entry and without conflicting resolvers, scores only for age, downgrade and registrar, at most 150. |
| `Pipeline.RunComparesWholeAddresses` | cmd/phisherslapper/main.go:362-373 | For the suspect's address of any run, an a term matches if and only if that address is one of its host, and an mx term if and only if it is one of a mail host (and in either case equal to the bare address, if any, in place of a prefix length). |
| `Pipeline.SameHostIsIdentical` | cmd/phisherslapper/main.go:274-414 | Two arguments that are decorations of one host are never scored as anything but identical, legitimate and zero. |

## Left out

- Why a lookup failed: a failed a or mx lookup is inconclusive (internal/dns/spf.go:257-268) whether the name does not exist, which section 5 of RFC 7208 treats as no match, or the server did not answer.
- Other differences from RFC 7208: exists, ptr and macros are unsupported by design, and are modelled as the code treats them, not compared with the standard.
- `Classify` (internal/cert/cert.go:58-69): the class of a certificate is taken as given.
- Goroutines of `fetchDomain` and `run`: their closures write disjoint fields, so they are modelled in sequence; the interleavings of `CheckDomain` are modelled in full.
- Timeouts, cancellation and retries: a lookup either has an answer or fails, once and for all.
- Update in place of the sorted slices: sorting returns a new sequence; the rows of the edit distance are arrays, as in the source.
- Go's parsers of addresses and CIDRs: arguments of the model; containment is equality of leading bits within one family.
- Unicode: no folding, trimming or word splitting beyond ASCII, so byte and rune counts coincide.
- Texts of findings and of certificate differences: findings are tags with points, differences are tags. The texts of resolver splits are modelled.
- DMARC parsing, ISO dates and the error texts of `VerifyDataQuality`: the policy and the age are given; the gate keeps its conditions on age and certificate.
- Pipeline.CoverageIsOfCertificate: stated for SANs without commas, because a comma inside a SAN splits it on reading.
- Voting.SplitPermuted: stated for at most one outcome named system, because the last of several would have the say; `CheckDomain` has exactly one.
- X.509 parsing, RDAP, report rendering, flag parsing, `compile.go`: input, output and user interface.
