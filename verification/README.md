# Career Compass — a Dafny model of its decision logic

Career Compass is a career-assistant web application: a FastAPI backend
that takes resume uploads (PDF or DOCX), extracts their text, finds the
skills they mention and the career domains those skills point to, and asks
a language model how well a resume fits a job description; and a Streamlit
dashboard that shows the results with a gamified "career readiness" score.

This project models the parts of it that make decisions, one Dafny module
per source file:

- `SkillExtraction` (app/services/skill_extractor.py): the skills database
  as a sequence of domains, the lower-cased vocabulary built from it, the
  whole-word keyword search over lower-cased text, and the ranking of
  domains by skill overlap (a stable sort by decreasing overlap, top three).
  `SkillExtractor` is a class whose database and vocabulary are fixed at
  construction; its two operations are methods with loops proved against
  specification functions.
- `ResumeParser` (app/services/resume_parser.py): `_clean_text` (whitespace
  runs collapsed to one space, ends stripped) and the e-mail half of
  `extract_contact_info`, with the regular expression's leftmost-greedy
  match written out.
- `JobMatchReply` (app/services/rag_service.py): `_parse_job_match_response`,
  its cascade of four extraction stages and the regular-expression fallback
  that builds a reply with defaults.
- `Backend` (app/main.py): the in-memory resume cache and its reload path
  (`get_resume_data`), the upload pipeline's filename, length and
  truncation rules (`upload_resume`), `delete_resume`, and the order of the
  checks in `register`. `ResumeService` is a class whose fields are the
  cache, the database rows, the files in the upload directory and the
  registered accounts.
- `Dashboard` (frontend.py): the readiness score and tier, the match-score
  messages, question previews, the registration form's checks and the match
  scores kept in the session.
- `Text` and `Wrappers` hold what the modules share: Python's whitespace,
  `\w` and `\d` classes, `str.lower`, `str.strip`, slicing with an ellipsis,
  and `Option`/`Result`.

Calls into code outside the model are parameters: the PDF and DOCX readers
(`readPdf`, `readDocx`), the embedding and vector-store step (`embed`), the
upload's database commit (`commitOk`), the generated uuid (`resumeId`), `json.loads`
(`loads`) and the two regular expressions that locate JSON objects in free
text (`searchObject`, `findObjects`).

Behaviours the model makes explicit:

- The fallback skill lists strip only spaces and quotes, so a list written
  one item per line keeps its newlines and quotes
  (`JobMatchReply.MultilineListKeepsQuotes`).
- The markdown stage's pattern has no capture group, so it never returns a
  value (`JobMatchReply.MarkdownStageNeverReturns`).
- `delete_resume` removes the uploaded file only when the resume is in the
  in-memory cache, since the path is read from the cache entry
  (`Backend.ResumeService.DeleteResume`).
- Domain overlap compares the given skills as given with lower-cased
  database entries, so a capitalised skill never counts
  (`SkillExtraction.GivenSkillsAreNotLowered`).
- The code has no synonym normalisation of skills and no weighted
  job-match score: the match score is read from the language model's reply.

## Model

| member | source | states |
|---|---|---|
| `Text.Lower` | app/services/skill_extractor.py:20 | `str.lower` keeps the length, maps each upper-case ASCII letter to its lower-case partner and keeps every other character |
| `Text.TrimLeft` | app/services/rag_service.py:127 | the left strip is a suffix of the input, starts with a kept character, and everything it dropped is a stripped character |
| `Text.Trim` | app/services/rag_service.py:127 | `strip(chars)` is the slice after the dropped prefix, both its ends are kept characters, and everything after it is stripped |
| `Text.Prefix` | app/main.py:398 | `s[:n]` has length `min(len(s), n)` and is a prefix of `s` (also the row's `text[:1000]` at line 454) |
| `Text.Ellipsize` | app/main.py:468 | a text within the limit is kept; a longer one becomes its first `n` characters followed by `"..."` |
| `SkillExtraction.Vocabulary` | app/services/skill_extractor.py:11-16 | every vocabulary entry is lower case |
| `SkillExtraction.VocabularyIsLoweredEntries` | app/services/skill_extractor.py:11-16 | a word is in the vocabulary exactly when it is the lower-cased form of some entry of some domain's skill list |
| `SkillExtraction.MissingSkillsKeyAddsNothing` | app/services/skill_extractor.py:15 | a domain without a "skills" key adds nothing to the vocabulary |
| `SkillExtraction.FoundSkillsIgnoreCase` | app/services/skill_extractor.py:20-26 | searching the lower-cased text finds the same skills as searching the text |
| `SkillExtraction.UpperCaseSkillNeverFound` | app/services/skill_extractor.py:20-26 | an entry with an upper-case letter can never be found in the lower-cased text |
| `SkillExtraction.Overlap` | app/services/skill_extractor.py:36-37 | the overlap is 0 exactly when no given skill equals a lower-cased entry of the domain, and never exceeds the domain's skill count |
| `SkillExtraction.DomainScores` | app/services/skill_extractor.py:33-39 | every scored domain has overlap at least 1 and is a database domain with exactly that overlap |
| `SkillExtraction.DomainScoresComplete` | app/services/skill_extractor.py:33-39 | every database domain with overlap at least 1 is scored, with that overlap |
| `SkillExtraction.InsertByOverlapPermutes` | app/services/skill_extractor.py:42 | one insertion step adds exactly the inserted pair |
| `SkillExtraction.InsertByOverlapSorted` | app/services/skill_extractor.py:42 | inserting into a list sorted by decreasing overlap keeps it sorted |
| `SkillExtraction.InsertByOverlapKeepsTies` | app/services/skill_extractor.py:42 | the inserted pair goes before every pair of equal overlap, and the order of those pairs is kept |
| `SkillExtraction.SortByOverlapSortsAndPermutes` | app/services/skill_extractor.py:42 | the ranking is in decreasing overlap order and is a permutation of the scored domains |
| `SkillExtraction.SortByOverlapIsStable` | app/services/skill_extractor.py:42 | domains of equal overlap keep their database order (Python's sort is stable) |
| `SkillExtraction.TopDomainsShape` | app/services/skill_extractor.py:41-43 | at most three domains are returned, in decreasing overlap, each a database domain sharing at least one skill |
| `SkillExtraction.TopDomainsAreTopK` | app/services/skill_extractor.py:41-43 | nothing is returned exactly when no database domain overlaps, and no database domain left out overlaps more than the last one returned |
| `SkillExtraction.TopDomainsDependOnSkillSet` | app/services/skill_extractor.py:37 | the ranking depends only on the set of given skills, not on their order or repetitions |
| `SkillExtraction.GivenSkillsAreNotLowered` | app/services/skill_extractor.py:36-37 | "Python" does not meet a domain listing "Python", while "python" does |
| `SkillExtraction.SkillExtractor.constructor` | app/services/skill_extractor.py:6-16 | the extractor keeps the database and its vocabulary is the flattened, lower-cased skill lists |
| `SkillExtraction.SkillExtractor.ExtractSkills` | app/services/skill_extractor.py:18-29 | the result lists each vocabulary entry occurring as a whole word in the lower-cased text, exactly once, and nothing else |
| `SkillExtraction.SkillExtractor.IdentifyDomains` | app/services/skill_extractor.py:31-43 | the result is the names of the first three domains of the stable ranking by decreasing overlap |
| `ResumeParser.RemoveSpacesStrip` | app/services/resume_parser.py:27 | stripping removes only whitespace |
| `ResumeParser.CollapseWhitespace` | app/services/resume_parser.py:26 | the result has no two adjacent whitespace characters and no whitespace other than a space, and starts with a space exactly when the input starts with whitespace |
| `ResumeParser.CollapseWordPrefix` | app/services/resume_parser.py:26 | a leading run without whitespace passes through the substitution unchanged |
| `ResumeParser.CollapseRun` | app/services/resume_parser.py:26 | a whole run of whitespace characters, of any length and kind, becomes exactly one space |
| `ResumeParser.CollapseKeepsContent` | app/services/resume_parser.py:26 | collapsing keeps every non-whitespace character, in order |
| `ResumeParser.CollapseKeepsSingleSpaced` | app/services/resume_parser.py:26 | collapsing text that is already single-spaced changes nothing |
| `ResumeParser.CleanText` | app/services/resume_parser.py:23-28 | cleaned text neither starts nor ends with whitespace and is single-spaced |
| `ResumeParser.CleanTextKeepsContent` | app/services/resume_parser.py:23-28 | cleaning neither loses, adds nor reorders a non-whitespace character |
| `ResumeParser.CleanTextEmptyIffBlank` | app/services/resume_parser.py:23-28 | text cleans to "" exactly when it is empty or all whitespace |
| `ResumeParser.CleanTextJoinsWords` | app/services/resume_parser.py:23-28 | two words separated by any interior whitespace run clean to the two words joined by one space |
| `ResumeParser.CleanTextIdempotent` | app/services/resume_parser.py:23-28 | cleaning cleaned text changes nothing |
| `ResumeParser.ExtractEmail` | app/services/resume_parser.py:33-40 | a reported e-mail is the text between the start and the end of the match the search finds |
| `ResumeParser.EmailAbsentIff` | app/services/resume_parser.py:33-40 | no e-mail is reported exactly when no '@' has an e-mail character on both sides, exactly when the pattern matches nowhere |
| `ResumeParser.EmailIsLeftmostGreedyMatch` | app/services/resume_parser.py:33-36 | the reported e-mail is a match, no match starts further left, its second run cannot be extended, and it holds exactly one '@' |
| `JobMatchReply.MarkdownStage` | app/services/rag_service.py:79-87 | the markdown stage raises exactly when the reply contains six backticks, and otherwise falls through |
| `JobMatchReply.MarkdownStageNeverReturns` | app/services/rag_service.py:81-85 | the markdown stage never returns a value |
| `JobMatchReply.ObjectStage` | app/services/rag_service.py:89-97 | the object stage returns exactly when the search finds an object that parses |
| `JobMatchReply.ContainsKey` | app/services/rag_service.py:105 | Python's `in` on the parsed value: a key of an object, an element of a list; no answer (a `TypeError`) for numbers, booleans and null |
| `JobMatchReply.FirstScoredFrom` | app/services/rag_service.py:101-109 | the first index from the start position whose object parses and has "match_score", or none when no later object does |
| `JobMatchReply.FirstScoredObject` | app/services/rag_service.py:99-111 | the returned object is the parse of the first found object that parses and has "match_score"; none is returned exactly when no found object qualifies |
| `JobMatchReply.FirstScoreAt` | app/services/rag_service.py:118 | the leftmost position where the score pattern matches, or none when it matches nowhere |
| `JobMatchReply.NumberAt` | app/services/rag_service.py:120 | the parsed number lies between its whole part and the next integer |
| `JobMatchReply.DigitsValueAppend` | app/services/rag_service.py:120 | the value of a digit string is the value of its head shifted by the length of its tail, plus the tail's value |
| `JobMatchReply.NumberAtValue` | app/services/rag_service.py:120 | `float()` of the match: the whole part's value without a fraction, and otherwise the value of all its digits divided by ten to the number of fraction digits |
| `JobMatchReply.FallbackScore` | app/services/rag_service.py:116-120 | the fallback score is never negative |
| `JobMatchReply.FallbackScoreDefault` | app/services/rag_service.py:117-119 | without a match of the score pattern the score is 70.0 |
| `JobMatchReply.FallbackScoreReadsNumber` | app/services/rag_service.py:118-120 | with a match the score is at least the whole part of the first matched number |
| `JobMatchReply.FirstListAt` | app/services/rag_service.py:124 | the leftmost position where the list pattern for a key matches, or none when it matches nowhere |
| `JobMatchReply.ListGroup` | app/services/rag_service.py:124-126 | the lazy group at a match is the text between the '[' and the first ']' after it |
| `JobMatchReply.ListContent` | app/services/rag_service.py:124-126 | a list is captured exactly when the key's pattern matches, and it is the text between the match's '[' and the first ']' after it |
| `JobMatchReply.SplitOnComma` | app/services/rag_service.py:127 | `split(',')` yields at least one piece, no piece holds a comma, and joining the pieces with commas gives back the text |
| `JobMatchReply.KeepSkills` | app/services/rag_service.py:127 | at most one skill per piece; each skill is a non-blank piece stripped of spaces and quotes, and neither of its ends is a space or a quote |
| `JobMatchReply.KeepSkillsComplete` | app/services/rag_service.py:127 | no non-blank piece is dropped: each one's trimmed form is among the skills |
| `JobMatchReply.KeepSkillsAppend` | app/services/rag_service.py:127 | the comprehension distributes over concatenation of the pieces, so the skills keep the pieces' order |
| `JobMatchReply.FallbackSkills` | app/services/rag_service.py:122-134 | no list is extracted when the key's pattern does not match; every skill is quote-trimmed and holds neither ',' nor ']'; every non-blank piece of the captured list is kept, and the list is exactly `KeepSkills` of its comma-separated pieces, in order |
| `JobMatchReply.MultilineListKeepsQuotes` | app/services/rag_service.py:124-127 | a list written one item per line yields the item with its newlines and quotes kept |
| `JobMatchReply.ClosingQuote` | app/services/rag_service.py:138 | where the lazy group stops: the first quote followed only by an optional '}' and the end of the text |
| `JobMatchReply.FirstRecAt` | app/services/rag_service.py:138 | the leftmost position where the recommendations pattern matches, or none when it matches nowhere |
| `JobMatchReply.RecGroup` | app/services/rag_service.py:138-139 | the captured recommendations run from after the opening quote to the first quote followed only by the closing tail, so the lazy group stops as early as it can |
| `JobMatchReply.FallbackRecommendationsCaptured` | app/services/rag_service.py:137-140 | when the leftmost match of the pattern is at a position, the recommendations are the lazy group captured there |
| `JobMatchReply.FallbackRecommendationsDefault` | app/services/rag_service.py:137-139 | without a match the recommendations are the whole reply |
| `JobMatchReply.FallbackReply.ToJson` | app/services/rag_service.py:142-147 | the reply is an object with exactly the four keys, carrying the score, the recommendations and the two skill lists as lists of strings |
| `JobMatchReply.AsStringsOfStringArray` | app/services/rag_service.py:142-147 | a list of strings written as a JSON array reads back as the same list |
| `JobMatchReply.Fallback` | app/services/rag_service.py:113-147 | the fallback reply's score is never negative |
| `JobMatchReply.ParseJobMatchResponse` | app/services/rag_service.py:64-147 | the first stage that yields a value decides the result, in the order direct parse, object search, first scored object, fallback; nothing raises |
| `Backend.StatusCode` | app/main.py:346-377 | an unsupported file type is the only 400, a missing resume or file the only 404s, and every other failure a 500 |
| `Backend.CachedEntry` | app/main.py:150-151 | the cache hits exactly when the id is cached under the caller, and then returns the cached entry |
| `Backend.CacheIsOwnerChecked` | app/main.py:151-152 | the cache only serves an entry to its owner |
| `Backend.StoreThenLookup` | app/main.py:193-202 | after a reload the owner's next lookup hits the cache, and other lookups are unchanged |
| `Backend.RemoveThenLookup` | app/main.py:706-710 | after removal no caller hits the cache for that id, and other ids are unchanged |
| `Backend.FirstExistingFrom` | app/main.py:166-172 | the first index from which a path exists, or none when no later path exists |
| `Backend.FirstExisting` | app/main.py:166-172 | the first existing path, or none exactly when no path exists |
| `Backend.PdfBeforeDocx` | app/main.py:166-172 | the PDF is used whenever it exists, the DOCX only when the PDF is missing, and neither gives none |
| `Backend.LastIndexOf` | app/main.py:353 | the position of the last occurrence of the character, or none when it does not occur |
| `Backend.Extension` | app/main.py:353 | `split('.')[-1]` is a suffix of the filename holding no dot, preceded by a dot when it is not the whole name |
| `Backend.ExtensionSuffix` | app/main.py:346-353 | a name ends with '.' and a dot-free extension exactly when `split('.')[-1]` is that extension and is not the whole name |
| `Backend.SupportedFilename` | app/main.py:346 | the `endswith` check accepts exactly the names whose extension is "pdf" or "docx" and that hold a dot |
| `Backend.SupportedExtension` | app/main.py:346-354 | an accepted filename has extension "pdf" or "docx", matching its suffix |
| `Backend.TooShort` | app/main.py:372 | a text is too short exactly when it has fewer than 10 characters once stripped (an empty text included) |
| `Backend.UploadText` | app/main.py:363-377 | extraction succeeds exactly when the chosen reader returns text whose cleaned form is not too short, and then yields that cleaned text; every failure is a parse failure |
| `Backend.RegisterCheck` | app/main.py:225-246 | registration succeeds exactly when the e-mail and username are free and the password has at least 6 characters; a taken e-mail is reported first, then a taken username, then a short password |
| `Backend.ResumeService.constructor` | app/main.py:144 | the service starts with an empty cache, no rows, no files and no accounts |
| `Backend.ResumeService.FindResumeFile` | app/main.py:166-172 | the extension loop returns the first candidate path that exists |
| `Backend.ResumeService.Analyse` | app/main.py:189-190 | the entry holds the text, the skills found in it without repeats (as `list(set(...))` gives them) and the top domains of those skills |
| `Backend.ResumeService.SkillCountIsFoundCount` | app/main.py:453 | for skills without repeats whose set is what the extractor finds (as in every analysed entry), the row's `skills_count` is the number of distinct skills found in the text |
| `Backend.ResumeService.GetResumeData` | app/main.py:147-208 | an owned cache entry is returned as is; otherwise a non-owner gets not found, a missing file gets file missing, a failed read a reload failure, and a read reloads, caches and returns the cleaned text's analysis, whose skills do not repeat |
| `Backend.ResumeService.PrepareUpload` | app/main.py:363-431 | the text is the chosen reader's cleaned output; a failed read or a short text fails the parse, a failed embedding fails with its own error, and success yields an analysed, embedded entry whose skills do not repeat |
| `Backend.ResumeService.CommitUpload` | app/main.py:438-462 | the entry is cached before the commit; a failed commit leaves the rows and reports the save failure, a successful one adds the row with the skill count and the first 1000 characters |
| `Backend.ResumeService.StoreUpload` | app/main.py:363-471 | after the save the outcome is a parse failure, an embedding failure, a save failure or success, checked in that order; a failure before the commit changes nothing, a failed commit leaves only the cached entry, and the cached text is the cleaned text the reader gave; success adds the row, whose skill count is the number of distinct skills found, and replies with a 500-character preview |
| `Backend.ResumeService.UploadResume` | app/main.py:336-471 | an unsupported name is refused with nothing changed; otherwise the file is saved under the uuid and the rest of the upload has the effect `StoreUpload` states, with the accounts untouched |
| `Backend.ResumeService.DeleteResume` | app/main.py:685-717 | only the owner may delete; the row and cache entry go, and the file goes only when the resume was cached |
| `Backend.ResumeService.Register` | app/main.py:222-262 | the result is the outcome of the checks in their order, and only a success records the e-mail and username |
| `Dashboard.CareerReadiness` | frontend.py:563-633 | the sequential overrides give the tier of the highest level reached and that level's score and next goal |
| `Dashboard.ReadinessScoreValues` | frontend.py:563-633 | the score is one of 0, 15, 25, 35, 45, 50, 55, 65, 75, 85, 95, 100 |
| `Dashboard.ReadinessScoreInBand` | frontend.py:569-633 | the score lies in the band of its tier's level (0-25, 26-50, 51-75, 76-100) |
| `Dashboard.BeginnerExactlyWithoutActivity` | frontend.py:563-580 | the tier is Beginner, and the score 0, exactly when there are no resumes, matches or advice queries |
| `Dashboard.FullScoreExactly` | frontend.py:612-633 | the score is 100, and the next-goal card hidden, exactly with two resumes, five matches, five advice queries and a best match of at least 80 |
| `Dashboard.ReadinessScoreMonotone` | frontend.py:563-633 | more resumes, matches, advice queries, skills or a better best match never lower the score |
| `Dashboard.MatchTierOf` | frontend.py:851-859 | excellent exactly from 80, good exactly from 60 below 80, partial exactly below 60 |
| `Dashboard.Preview` | frontend.py:945 | a question of at most 80 characters is kept; a longer one becomes its first 80 characters and "...", 83 characters in all |
| `Dashboard.RegistrationForm` | frontend.py:478-484 | the form submits exactly when all three fields are filled in, the passwords agree and the password has at least 6 characters; otherwise the first failing check in that order is reported |
| `Dashboard.SubmittedFormPassesPasswordCheck` | app/main.py:241-246 | a request the form submits never fails the backend's password-length check |
| `Dashboard.MaxOfIsMaximum` | frontend.py:847 | the maximum of the scores is one of them and bounds all of them |
| `Dashboard.MaxOfAppend` | frontend.py:847 | appending a score updates the maximum by one comparison |
| `Dashboard.MatchSession.constructor` | frontend.py:31-34 | the session starts with no matches, no scores and a best score of 0 |
| `Dashboard.MatchSession.RecordMatch` | frontend.py:841-847 | a match adds one to the count, appends its score (0 when missing), makes the best score the maximum of the list, and picks the message for the score |

## Left out

- Reading PDF and DOCX files (pdfplumber, python-docx): the readers are parameters returning the raw text or `None` where they raise; the cleaning that follows is modelled.
- The phone pattern of `extract_contact_info` (app/services/resume_parser.py:34): only the e-mail half is modelled.
- `json.loads` and the regular expressions at app/services/rag_service.py:91 and :101 are parameters, not modelled.
- The language-model calls, embeddings and the vector store: `embed` stands for generating, checking and storing the embedding (app/main.py:393-431), and says only whether it succeeds.
- Authentication (password hashing, tokens, login, profile), and the job-match, career-advice, history and view endpoints.
- The database is a map from resume id to row; the outcome of the upload's commit (app/main.py:457) is the parameter `commitOk`, and the rollback restores nothing else.
- The commits of `delete_resume` (app/main.py:714) and `register` (app/main.py:259) are taken to succeed: a failing commit there raises an unhandled error, which the model does not follow.
- The uploaded file's contents: saving is adding its path to the set of files.
- The try/except around skill extraction in `upload_resume` (app/main.py:381-390): extraction cannot raise in the model.
- `\w`, `\d` and `str.lower` are modelled on ASCII only; `\s` and `str.strip()` use Python's full whitespace list.
- Floating point: scores are `real`, so `float()` of the fallback score and the comparisons with 60 and 80 are exact; `round(profile_score, 1)` is the identity on the integer scores.
- The average match score (frontend.py:846), a float division.
- The counts and the best score the home page fetches from the backend (frontend.py:525-561) are parameters of `Dashboard.CareerReadiness`.
- Rendering: tier colours and emoji, page layout, navigation and the Streamlit reruns.
- The `print` logging in app/main.py and app/services/rag_service.py: it changes no state and no result.
- SkillExtraction.SkillExtractor.ExtractSkills: the order of the returned list is left open, because `list(set(...))` orders by string hashes.
