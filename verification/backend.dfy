/** The resume service of the backend (app/main.py): the in-memory resume
    cache with its owner check and reload path, the upload pipeline's
    filename and truncation rules, deletion, and the order of the
    registration checks.

    The database is a map from resume id to its row, the upload directory a
    set of existing paths. Text extraction from PDF and DOCX files, the
    embedding/vector-store step and the database commit are calls into code
    outside the model and arrive as parameters. */
module Backend {
  import opened Wrappers
  import opened Text
  import opened SkillExtraction
  import opened ResumeParser

  /** A `resume_storage` value. */
  datatype ResumeEntry = ResumeEntry(
    text: string,
    skills: seq<string>,
    domains: seq<string>,
    filePath: string,
    userId: string)

  /** A `UserResume` row, keyed by its resume id. */
  datatype ResumeRow = ResumeRow(
    userId: string,
    filename: string,
    skillsCount: nat,
    extractedText: string)

  /** The `HTTPException`s the modelled endpoints raise. */
  datatype Failure =
    | ResumeNotFound        // no row for this resume and caller
    | ResumeFileMissing     // neither upload file exists any more
    | ReloadFailed          // text extraction raised while reloading
    | UnsupportedFileType   // filename ends neither in .pdf nor in .docx
    | ParseFailed           // extraction raised, or the text is too short
    | EmbeddingFailed
    | SaveFailed            // the database commit raised

  function StatusCode(f: Failure): (code: nat)
    ensures code == 400 <==> f == UnsupportedFileType
    ensures code == 404 <==> f == ResumeNotFound || f == ResumeFileMissing
    ensures code == 400 || code == 404 || code == 500
  {
    match f
    case ResumeNotFound => 404
    case ResumeFileMissing => 404
    case UnsupportedFileType => 400
    case _ => 500
  }

  /** `ResumeUploadResponse` */
  datatype UploadReply = UploadReply(
    resumeId: string,
    extractedText: string,
    skills: seq<string>,
    domains: seq<string>)

  /** The cache hit of `get_resume_data`: present and owned by the caller. */
  function CachedEntry(storage: map<string, ResumeEntry>, resumeId: string, userId: string): (r: Option<ResumeEntry>)
    ensures r.Some? <==> resumeId in storage && storage[resumeId].userId == userId
    ensures r.Some? ==> r.value == storage[resumeId]
  {
    if resumeId in storage && storage[resumeId].userId == userId then Some(storage[resumeId]) else None
  }

  /** Another user's cached resume is never served from the cache. */
  lemma CacheIsOwnerChecked(storage: map<string, ResumeEntry>, resumeId: string, userId: string)
    ensures CachedEntry(storage, resumeId, userId).Some? ==> CachedEntry(storage, resumeId, userId).value.userId == userId
    ensures resumeId in storage && storage[resumeId].userId != userId ==> CachedEntry(storage, resumeId, userId).None?
  {
  }

  /** Storing a reloaded entry makes the next lookup by its owner a hit and
      leaves every other lookup as it was. */
  lemma StoreThenLookup(storage: map<string, ResumeEntry>, resumeId: string, e: ResumeEntry, otherId: string, otherUser: string)
    ensures CachedEntry(storage[resumeId := e], resumeId, e.userId) == Some(e)
    ensures otherId != resumeId ==> CachedEntry(storage[resumeId := e], otherId, otherUser) == CachedEntry(storage, otherId, otherUser)
  {
  }

  /** After removal no caller hits the cache for that id; other ids keep
      their entries. */
  lemma RemoveThenLookup(storage: map<string, ResumeEntry>, resumeId: string, userId: string, otherId: string)
    ensures CachedEntry(storage - {resumeId}, resumeId, userId).None?
    ensures otherId != resumeId ==> CachedEntry(storage - {resumeId}, otherId, userId) == CachedEntry(storage, otherId, userId)
  {
  }

  /** `f"{upload_dir}/{resume_id}.{ext}"` */
  function ResumePath(uploadDir: string, resumeId: string, ext: string): string
  {
    uploadDir + "/" + resumeId + "." + ext
  }

  /** The candidate files of a resume, in the order they are tried. */
  function CandidatePaths(uploadDir: string, resumeId: string): seq<string>
  {
    [ResumePath(uploadDir, resumeId, "pdf"), ResumePath(uploadDir, resumeId, "docx")]
  }

  /** Index of the first of `paths[from..]` that exists. */
  function FirstExistingFrom(paths: seq<string>, files: set<string>, from: nat): (r: Option<nat>)
    ensures r.Some? ==> from <= r.value < |paths| && paths[r.value] in files
                        && forall j :: from <= j < r.value ==> paths[j] !in files
    ensures r.None? ==> forall j :: from <= j < |paths| ==> paths[j] !in files
    decreases |paths| - from
  {
    if from >= |paths| then None
    else if paths[from] in files then Some(from)
    else FirstExistingFrom(paths, files, from + 1)
  }

  /** The first of `paths` that exists. */
  function FirstExisting(paths: seq<string>, files: set<string>): (r: Option<string>)
    ensures r.Some? ==> exists i :: 0 <= i < |paths| && paths[i] == r.value && r.value in files
                                    && forall j :: 0 <= j < i ==> paths[j] !in files
    ensures r.None? <==> forall p :: p in paths ==> p !in files
  {
    match FirstExistingFrom(paths, files, 0)
    case None => None
    case Some(i) => Some(paths[i])
  }

  /** The PDF is preferred whenever it exists; the DOCX is used only when
      the PDF is missing; with neither the lookup fails. */
  lemma PdfBeforeDocx(uploadDir: string, resumeId: string, files: set<string>)
    ensures var pdf := ResumePath(uploadDir, resumeId, "pdf");
            var docx := ResumePath(uploadDir, resumeId, "docx");
            var r := FirstExisting(CandidatePaths(uploadDir, resumeId), files);
            (pdf in files ==> r == Some(pdf))
            && (pdf !in files && docx in files ==> r == Some(docx))
            && (pdf !in files && docx !in files ==> r == None)
  {
    var pdf := ResumePath(uploadDir, resumeId, "pdf");
    var docx := ResumePath(uploadDir, resumeId, "docx");
    assert CandidatePaths(uploadDir, resumeId)[1..] == [docx];
  }

  /** Index of the last `c` in `s`. */
  function LastIndexOf(s: string, c: char): (r: Option<nat>)
    ensures r.Some? ==> r.value < |s| && s[r.value] == c && forall j :: r.value < j < |s| ==> s[j] != c
    ensures r.None? ==> forall j :: 0 <= j < |s| ==> s[j] != c
    decreases |s|
  {
    if s == [] then None
    else if s[|s| - 1] == c then Some(|s| - 1)
    else LastIndexOf(s[..|s| - 1], c)
  }

  /** `filename.split('.')[-1]`: the text after the last dot, or the whole
      name when there is none. */
  function Extension(filename: string): (ext: string)
    ensures EndsWith(filename, ext)
    ensures forall j :: 0 <= j < |ext| ==> ext[j] != '.'
    ensures |ext| < |filename| ==> filename[|filename| - |ext| - 1] == '.'
  {
    match LastIndexOf(filename, '.')
    case None => filename
    case Some(i) => filename[i + 1..]
  }

  /** `filename.endswith(('.pdf', '.docx'))`: exactly the names with a dot
      whose extension is "pdf" or "docx". */
  predicate SupportedFilename(filename: string): (b: bool)
    ensures b <==> (Extension(filename) == "pdf" || Extension(filename) == "docx")
                   && |Extension(filename)| < |filename|
  {
    ExtensionSuffix(filename, "pdf");
    ExtensionSuffix(filename, "docx");
    assert ['.'] + "pdf" == ".pdf" && ['.'] + "docx" == ".docx";
    EndsWith(filename, ".pdf") || EndsWith(filename, ".docx")
  }

  /** A name ends in a dot and `ext`, where `ext` holds no dot, exactly
      when it has a dot and its extension is `ext`. */
  lemma ExtensionSuffix(filename: string, ext: string)
    requires forall j :: 0 <= j < |ext| ==> ext[j] != '.'
    ensures EndsWith(filename, ['.'] + ext) <==> Extension(filename) == ext && |ext| < |filename|
  {
    var n := |filename|;
    if EndsWith(filename, ['.'] + ext) {
      assert filename[n - |ext| - 1] == '.' && filename[n - |ext|..] == ext;
      var i := LastIndexOf(filename, '.').value;
      assert i == n - |ext| - 1;
    }
    if Extension(filename) == ext && |ext| < |filename| {
      assert filename[n - |ext| - 1..] == ['.'] + ext;
    }
  }

  /** An accepted filename has extension "pdf" or "docx", matching its
      suffix, so the stored file keeps the uploaded type. */
  lemma {:induction false} SupportedExtension(filename: string)
    requires SupportedFilename(filename)
    ensures EndsWith(filename, ".pdf") ==> Extension(filename) == "pdf"
    ensures EndsWith(filename, ".docx") ==> Extension(filename) == "docx"
  {
    var n := |filename|;
    if EndsWith(filename, ".pdf") {
      assert filename[n - 4] == '.' && filename[n - 3..] == "pdf";
      var i := LastIndexOf(filename, '.').value;
      assert i == n - 4;
    }
    if EndsWith(filename, ".docx") {
      assert filename[n - 5] == '.' && filename[n - 4..] == "docx";
      var i := LastIndexOf(filename, '.').value;
      assert i == n - 5;
    }
  }

  /** The reader `get_resume_data` picks by the file's suffix. */
  function ReadResume(path: string, readPdf: string -> Option<string>,
                      readDocx: string -> Option<string>): Option<string>
  {
    if EndsWith(path, ".pdf") then readPdf(path) else readDocx(path)
  }

  /** `not text or len(text.strip()) < 10`: extracted text that is rejected,
      which is exactly text with fewer than 10 characters once stripped. */
  predicate TooShort(text: string): (b: bool)
    ensures b <==> |Strip(text)| < 10
  {
    text == [] || |Strip(text)| < 10
  }

  /** The reader `upload_resume` picks by the extension. */
  function UploadReader(ext: string, filePath: string, readPdf: string -> Option<string>,
                        readDocx: string -> Option<string>): Option<string>
  {
    if ext == "pdf" then readPdf(filePath) else readDocx(filePath)
  }

  /** The text extraction step of `upload_resume`: the reader chosen by
      the extension, cleaned; a reader that raises or a text too short to be
      a resume fails with `ParseFailed`. */
  function UploadText(ext: string, filePath: string, readPdf: string -> Option<string>,
                      readDocx: string -> Option<string>): (r: Result<string, Failure>)
    ensures r.Err? ==> r.error == ParseFailed
    ensures var raw := UploadReader(ext, filePath, readPdf, readDocx);
            r.Ok? <==> raw.Some? && !TooShort(CleanText(raw.value))
    ensures r.Ok? ==> r.value == CleanText(UploadReader(ext, filePath, readPdf, readDocx).value)
    ensures r.Ok? ==> !TooShort(r.value) && |r.value| >= 10
  {
    var raw := UploadReader(ext, filePath, readPdf, readDocx);
    if raw.None? then Err(ParseFailed)
    else
      var text := CleanText(raw.value);
      if TooShort(text) then Err(ParseFailed) else Ok(text)
  }

  /** Why `register` refuses a request. */
  datatype RegisterError = EmailRegistered | UsernameTaken | PasswordTooShort

  /** The checks of `register`, in their order: a registered e-mail first,
      then a taken username, then a password shorter than 6 characters. */
  function RegisterCheck(emails: set<string>, usernames: set<string>,
                         email: string, username: string, password: string): (r: Result<(), RegisterError>)
    ensures r.Ok? <==> email !in emails && username !in usernames && |password| >= 6
    ensures r == Err(EmailRegistered) <==> email in emails
    ensures r == Err(UsernameTaken) <==> email !in emails && username in usernames
    ensures r == Err(PasswordTooShort) <==> email !in emails && username !in usernames && |password| < 6
  {
    if email in emails then Err(EmailRegistered)
    else if username in usernames then Err(UsernameTaken)
    else if |password| < 6 then Err(PasswordTooShort)
    else Ok(())
  }

  /** The backend's state: the resume cache, the database rows, the files in
      the upload directory and the registered accounts. */
  /** A list without repeats has as many elements as the set of them. */
  lemma {:induction false} DistinctCount(xs: seq<string>)
    requires forall i, j :: 0 <= i < j < |xs| ==> xs[i] != xs[j]
    ensures |xs| == |set w | w in xs|
  {
    if xs != [] {
      DistinctCount(xs[1..]);
      assert (set w | w in xs) == {xs[0]} + (set w | w in xs[1..]);
      assert xs[0] !in (set w | w in xs[1..]);
    }
  }

  class ResumeService {
    const uploadDir: string
    const extractor: SkillExtractor
    var storage: map<string, ResumeEntry>
    var rows: map<string, ResumeRow>
    var files: set<string>
    var emails: set<string>
    var usernames: set<string>

    constructor (uploadDir: string, extractor: SkillExtractor)
      ensures this.uploadDir == uploadDir && this.extractor == extractor
      ensures storage == map[] && rows == map[] && files == {}
      ensures emails == {} && usernames == {}
    {
      this.uploadDir := uploadDir;
      this.extractor := extractor;
      storage := map[];
      rows := map[];
      files := {};
      emails := {};
      usernames := {};
    }

    /** The row query `resume_id == id and user_id == caller` finds a row. */
    predicate Owns(resumeId: string, userId: string)
      reads this
    {
      resumeId in rows && rows[resumeId].userId == userId
    }

    /** The extension loop of `get_resume_data`: the first candidate path
        that exists. */
    method FindResumeFile(resumeId: string) returns (path: Option<string>)
      ensures path == FirstExisting(CandidatePaths(uploadDir, resumeId), files)
    {
      var exts := ["pdf", "docx"];
      var candidates := CandidatePaths(uploadDir, resumeId);
      path := None;
      var k := 0;
      while k < |exts|
        invariant 0 <= k <= |exts|
        invariant FirstExistingFrom(candidates, files, 0) == FirstExistingFrom(candidates, files, k)
      {
        assert candidates[k] == ResumePath(uploadDir, resumeId, exts[k]);
        var potential := ResumePath(uploadDir, resumeId, exts[k]);
        if potential in files {
          path := Some(potential);
          return;
        }
        k := k + 1;
      }
    }

    /** What the skill extractor yields for `text`: the skills found in it
        and the top domains of those skills. */
    predicate Analysed(text: string, skills: seq<string>, domains: seq<string>)
    {
      (set w | w in skills) == FoundSkills(extractor.allSkills, text)
      && (forall i, j :: 0 <= i < j < |skills| ==> skills[i] != skills[j])
      && domains == Names(TopDomainScores(extractor.skillsData, skills))
    }

    /** The `skills_count` of a row is the number of distinct skills the
        extractor finds in the text. */
    lemma SkillCountIsFoundCount(text: string, skills: seq<string>)
      requires (set w | w in skills) == FoundSkills(extractor.allSkills, text)
      requires forall i, j :: 0 <= i < j < |skills| ==> skills[i] != skills[j]
      ensures |skills| == |FoundSkills(extractor.allSkills, text)|
    {
      DistinctCount(skills);
    }

    /** The cache entry for a resume with extracted text `text`: the text
        and what the skill extractor finds in it. */
    method Analyse(text: string, filePath: string, userId: string) returns (e: ResumeEntry)
      requires extractor.Valid()
      ensures e.text == text && e.filePath == filePath && e.userId == userId
      ensures Analysed(e.text, e.skills, e.domains)
    {
      var skills := extractor.ExtractSkills(text);
      var domains := extractor.IdentifyDomains(skills);
      e := ResumeEntry(text, skills, domains, filePath, userId);
    }

    /** The entry `upload_resume` caches: text long enough, embedded, the
        stored file's path, the uploader, and the extractor's findings. */
    predicate UploadedEntry(e: ResumeEntry, filename: string, resumeId: string, userId: string,
                            embed: string -> bool)
    {
      SupportedFilename(filename) && !TooShort(e.text) && embed(Prefix(e.text, 5000))
      && e.filePath == ResumePath(uploadDir, resumeId, Extension(filename)) && e.userId == userId
      && Analysed(e.text, e.skills, e.domains)
    }

    /** `get_resume_data`: the cached entry when the caller owns it, else a
        reload from the stored file that refreshes the cache. */
    method GetResumeData(resumeId: string, userId: string,
                         readPdf: string -> Option<string>,
                         readDocx: string -> Option<string>) returns (r: Result<ResumeEntry, Failure>)
      requires extractor.Valid()
      modifies this
      ensures rows == old(rows) && files == old(files)
      ensures emails == old(emails) && usernames == old(usernames)
      ensures r.Err? ==> storage == old(storage)
      ensures CachedEntry(old(storage), resumeId, userId).Some? ==>
                r == Ok(CachedEntry(old(storage), resumeId, userId).value) && storage == old(storage)
      ensures CachedEntry(old(storage), resumeId, userId).None? && !Owns(resumeId, userId) ==>
                r == Err(ResumeNotFound)
      ensures CachedEntry(old(storage), resumeId, userId).None? && Owns(resumeId, userId)
              && FirstExisting(CandidatePaths(uploadDir, resumeId), files).None? ==>
                r == Err(ResumeFileMissing)
      ensures CachedEntry(old(storage), resumeId, userId).None? && Owns(resumeId, userId)
              && FirstExisting(CandidatePaths(uploadDir, resumeId), files).Some? ==>
                var path := FirstExisting(CandidatePaths(uploadDir, resumeId), files).value;
                match ReadResume(path, readPdf, readDocx)
                case None => r == Err(ReloadFailed)
                case Some(raw) =>
                  r.Ok? && r.value.text == CleanText(raw) && r.value.filePath == path && r.value.userId == userId
                  && Analysed(r.value.text, r.value.skills, r.value.domains)
      ensures CachedEntry(old(storage), resumeId, userId).None? && r.Ok? ==>
                storage == old(storage)[resumeId := r.value]
    {
      var cached := CachedEntry(storage, resumeId, userId);
      if cached.Some? {
        return Ok(cached.value);
      }
      if !Owns(resumeId, userId) {
        return Err(ResumeNotFound);
      }
      var found := FindResumeFile(resumeId);
      if found.None? {
        return Err(ResumeFileMissing);
      }
      var filePath := found.value;
      var raw := ReadResume(filePath, readPdf, readDocx);
      if raw.None? {
        return Err(ReloadFailed);
      }
      var entry := Analyse(CleanText(raw.value), filePath, userId);
      storage := storage[resumeId := entry];
      r := Ok(entry);
    }

    /** The part of `upload_resume` between saving the file and caching
        the entry: extraction of the text, its analysis and the embedding.
        `embed` says whether embedding and storing a text succeeds. */
    method PrepareUpload(ext: string, filePath: string, userId: string,
                         readPdf: string -> Option<string>,
                         readDocx: string -> Option<string>,
                         embed: string -> bool) returns (r: Result<ResumeEntry, Failure>)
      requires extractor.Valid()
      ensures r.Err? ==> r.error == ParseFailed || r.error == EmbeddingFailed
      ensures UploadText(ext, filePath, readPdf, readDocx).Err? ==> r == Err(ParseFailed)
      ensures UploadText(ext, filePath, readPdf, readDocx).Ok? ==>
                var text := UploadText(ext, filePath, readPdf, readDocx).value;
                (!embed(Prefix(text, 5000)) ==> r == Err(EmbeddingFailed))
                && (embed(Prefix(text, 5000)) ==> r.Ok? && r.value.text == text)
      ensures r.Ok? ==> !TooShort(r.value.text) && embed(Prefix(r.value.text, 5000))
                        && r.value.filePath == filePath && r.value.userId == userId
                        && Analysed(r.value.text, r.value.skills, r.value.domains)
    {
      var extracted := UploadText(ext, filePath, readPdf, readDocx);
      if extracted.Err? {
        return Err(extracted.error);
      }
      var text := extracted.value;
      var entry := Analyse(text, filePath, userId);
      if !embed(Prefix(text, 5000)) {
        return Err(EmbeddingFailed);
      }
      r := Ok(entry);
    }

    /** The end of `upload_resume`: the entry is cached, then the row is
        committed; a failed commit leaves the cached entry in place. */
    method CommitUpload(userId: string, filename: string, resumeId: string, entry: ResumeEntry,
                        commitOk: bool) returns (r: Result<UploadReply, Failure>)
      modifies this`storage, this`rows
      ensures storage == old(storage)[resumeId := entry]
      ensures !commitOk ==> r == Err(SaveFailed) && rows == old(rows)
      ensures commitOk ==>
                rows == old(rows)[resumeId := ResumeRow(userId, filename, |entry.skills|, Prefix(entry.text, 1000))]
                && r == Ok(UploadReply(resumeId, Ellipsize(entry.text, 500), entry.skills, entry.domains))
    {
      storage := storage[resumeId := entry];
      if !commitOk {
        return Err(SaveFailed);
      }
      rows := rows[resumeId := ResumeRow(userId, filename, |entry.skills|, Prefix(entry.text, 1000))];
      r := Ok(UploadReply(resumeId, Ellipsize(entry.text, 500), entry.skills, entry.domains));
    }

    /** The extraction step for an upload of `filename` under `resumeId`. */
    function UploadedText(filename: string, resumeId: string, readPdf: string -> Option<string>,
                          readDocx: string -> Option<string>): Result<string, Failure>
    {
      var ext := Extension(filename);
      UploadText(ext, ResumePath(uploadDir, resumeId, ext), readPdf, readDocx)
    }

    /** How an upload ends once the file is saved: a parse failure, else an
        embedding failure, else a save failure, else success. */
    predicate UploadOutcome(r: Result<UploadReply, Failure>, filename: string, resumeId: string,
                            readPdf: string -> Option<string>, readDocx: string -> Option<string>,
                            embed: string -> bool, commitOk: bool)
    {
      var t := UploadedText(filename, resumeId, readPdf, readDocx);
      (t.Err? ==> r == Err(ParseFailed))
      && (t.Ok? && !embed(Prefix(t.value, 5000)) ==> r == Err(EmbeddingFailed))
      && (t.Ok? && embed(Prefix(t.value, 5000)) && !commitOk ==> r == Err(SaveFailed))
      && (t.Ok? && embed(Prefix(t.value, 5000)) && commitOk ==> r.Ok?)
    }

    /** What an upload leaves once its file is saved, given the cache
        `cache0` and rows `rows0` before it: the outcome, and the cache and
        rows it leaves (the cached entry survives a failed commit). */
    predicate UploadEffect(cache0: map<string, ResumeEntry>, rows0: map<string, ResumeRow>,
                           r: Result<UploadReply, Failure>, userId: string, filename: string,
                           resumeId: string, readPdf: string -> Option<string>,
                           readDocx: string -> Option<string>, embed: string -> bool, commitOk: bool)
      reads this`storage, this`rows
    {
      UploadOutcome(r, filename, resumeId, readPdf, readDocx, embed, commitOk)
      && (r.Err? ==> rows == rows0)
      && (r.Err? && r.error != SaveFailed ==> storage == cache0)
      && (r == Err(SaveFailed) || r.Ok? ==>
            resumeId in storage && storage == cache0[resumeId := storage[resumeId]]
            && UploadedEntry(storage[resumeId], filename, resumeId, userId, embed)
            && UploadedText(filename, resumeId, readPdf, readDocx) == Ok(storage[resumeId].text))
      && (r.Ok? ==>
            resumeId in storage
            && var e := storage[resumeId];
               rows == rows0[resumeId := ResumeRow(userId, filename, |e.skills|, Prefix(e.text, 1000))]
               && r.value == UploadReply(resumeId, Ellipsize(e.text, 500), e.skills, e.domains))
    }

    /** `upload_resume` after the file is saved: extraction, analysis and
        embedding, then the cache entry and the database row. */
    method StoreUpload(userId: string, filename: string, resumeId: string,
                       readPdf: string -> Option<string>,
                       readDocx: string -> Option<string>,
                       embed: string -> bool, commitOk: bool) returns (r: Result<UploadReply, Failure>)
      requires extractor.Valid() && SupportedFilename(filename)
      modifies this`storage, this`rows
      ensures UploadEffect(old(storage), old(rows), r, userId, filename, resumeId, readPdf, readDocx, embed, commitOk)
    {
      var ext := Extension(filename);
      var filePath := ResumePath(uploadDir, resumeId, ext);
      ghost var text := UploadedText(filename, resumeId, readPdf, readDocx);
      assert text == UploadText(ext, filePath, readPdf, readDocx);
      var prepared := PrepareUpload(ext, filePath, userId, readPdf, readDocx, embed);
      if prepared.Err? {
        r := Err(prepared.error);
        assert text.Err? ==> r == Err(ParseFailed);
        assert text.Ok? ==> !embed(Prefix(text.value, 5000)) && r == Err(EmbeddingFailed);
        return;
      }
      assert text == Ok(prepared.value.text);
      r := CommitUpload(userId, filename, resumeId, prepared.value, commitOk);
    }

    /** `upload_resume` for a caller, with `resumeId` the generated uuid and
        `commitOk` saying whether the database commit succeeds. */
    method UploadResume(userId: string, filename: string, resumeId: string,
                        readPdf: string -> Option<string>,
                        readDocx: string -> Option<string>,
                        embed: string -> bool, commitOk: bool) returns (r: Result<UploadReply, Failure>)
      requires extractor.Valid()
      modifies this`storage, this`rows, this`files
      ensures emails == old(emails) && usernames == old(usernames)
      ensures !SupportedFilename(filename) ==>
                r == Err(UnsupportedFileType)
                && files == old(files) && storage == old(storage) && rows == old(rows)
      ensures SupportedFilename(filename) ==>
                files == old(files) + {ResumePath(uploadDir, resumeId, Extension(filename))}
      ensures SupportedFilename(filename) ==>
                UploadEffect(old(storage), old(rows), r, userId, filename, resumeId, readPdf, readDocx, embed, commitOk)
    {
      if !SupportedFilename(filename) {
        return Err(UnsupportedFileType);
      }
      // The readers take the stored path as an argument, so the order of
      // saving the file and extracting from it does not show in the state.
      r := StoreUpload(userId, filename, resumeId, readPdf, readDocx, embed, commitOk);
      files := files + {ResumePath(uploadDir, resumeId, Extension(filename))};
    }

    /** `delete_resume`: only the owner may delete. The file is removed
        only when the resume is cached, because its path is read from the
        cache entry. */
    method DeleteResume(resumeId: string, userId: string) returns (r: Result<(), Failure>)
      modifies this
      ensures emails == old(emails) && usernames == old(usernames)
      ensures r.Ok? <==> old(Owns(resumeId, userId))
      ensures r.Err? ==> r.error == ResumeNotFound && storage == old(storage) && rows == old(rows) && files == old(files)
      ensures r.Ok? ==> storage == old(storage) - {resumeId} && rows == old(rows) - {resumeId}
      ensures r.Ok? && resumeId in old(storage) ==> files == old(files) - {old(storage)[resumeId].filePath}
      ensures r.Ok? && resumeId !in old(storage) ==> files == old(files)
    {
      if !Owns(resumeId, userId) {
        return Err(ResumeNotFound);
      }
      if resumeId in storage {
        var filePath := storage[resumeId].filePath;
        if filePath in files {
          files := files - {filePath};
        }
        storage := storage - {resumeId};
      }
      rows := rows - {resumeId};
      r := Ok(());
    }

    /** `register`: the checks of `RegisterCheck`, then the new account. */
    method Register(email: string, username: string, password: string) returns (r: Result<(), RegisterError>)
      modifies this
      ensures r == RegisterCheck(old(emails), old(usernames), email, username, password)
      ensures r.Ok? ==> emails == old(emails) + {email} && usernames == old(usernames) + {username}
      ensures r.Err? ==> emails == old(emails) && usernames == old(usernames)
      ensures storage == old(storage) && rows == old(rows) && files == old(files)
    {
      r := RegisterCheck(emails, usernames, email, username, password);
      if r.Ok? {
        emails := emails + {email};
        usernames := usernames + {username};
      }
    }
  }
}
