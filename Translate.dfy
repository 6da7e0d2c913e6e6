/** Translating pages and files: which parts of a page go through the
    translation service, the per-file retry loop, and the batch over many
    files. The service is an oracle: `translate(text)` is the content of
    the `TranslationResult` that `translate_content` gives for `text`. */
module Translate {
  import opened Wrappers
  import opened Text
  import opened Paths
  import opened Pages
  import opened Prompts
  import opened Utils
  import Loader
  import Validate

  /** `MIN_CONTENT_LENGTH`: shorter bodies, once stripped, are not sent. */
  const MinContentLength := 10

  /** `TranslationResult`: the translated text and its token count. */
  datatype TranslationResult = TranslationResult(content: string, tokens: int)

  /** `translate_content(md_content, prompt)`: formats the prompt, lets
      `longer_create` collect the completion over the service's answers
      `script`, and counts the tokens of the result. `sent` lists the
      message lists of the requests, in order: the first is the formatted
      prompt for `mdContent`, and each later one adds one continuation. A
      language the prompt cannot name makes `format` fail, and nothing is
      sent. */
  method TranslateContent(mdContent: string, prompt: PromptTemplate, render: (string, map<string, string>) -> string,
                          script: seq<Response>, seps: seq<string>, countTokens: string -> nat)
    returns (r: Result<TranslationResult>, sent: seq<seq<Message>>)
    requires HasFinal(script)
    ensures r.Failure? <==> prompt.language !in LanguagesDict
    ensures r.Failure? ==> sent == []
    ensures r.Success? ==> r.value.content == Stitched(script, seps) && r.value.tokens == countTokens(r.value.content)
    ensures r.Success? ==> |sent| == FirstFinal(script) + 1 && sent[0] == prompt.Format(mdContent, render).value
    ensures r.Success? ==>
      forall k :: 0 <= k < |sent| ==> sent[k] == prompt.Format(mdContent, render).value + Continuations(script, seps)[..k]
  {
    var messages := prompt.Format(mdContent, render);
    if messages.Failure? {
      return Failure(messages.error), [];
    }
    var conv := new Conversation(messages.value);
    var output;
    output, sent := LongerCreate(conv, script, seps);
    r := Success(TranslationResult(output, countTokens(output)));
  }

  /** The settings of a `Translator` that decide what is translated. */
  datatype Translator = Translator(language: string, doTranslateHeaderDescription: bool, doTranslateHeaderTitle: bool)

  // ---------------------------------------------------------------------
  // translate_page, specified field by field
  // ---------------------------------------------------------------------

  /** The body is sent unless it is shorter than `MinContentLength` once stripped. */
  predicate SendsBody(page: Page) {
    |Strip(page.content)| >= MinContentLength
  }

  /** A title or description is sent when it is non-empty and its flag is set. */
  predicate SendsItem(item: Option<string>, flag: bool) {
    Truthy(item) && flag
  }

  /** The `support` list is translated when the key is there and its value is non-empty. */
  predicate SendsSupport(metadata: map<string, MetaValue>) {
    "support" in metadata && MetaTruthy(metadata["support"])
  }

  function TranslatedItem(item: Option<string>, flag: bool, translate: string -> string): Option<string> {
    if SendsItem(item, flag) then Some(translate(item.value)) else item
  }

  function TranslatedItems(items: seq<string>, translate: string -> string): (r: seq<string>)
    ensures |r| == |items| && forall k :: 0 <= k < |items| ==> r[k] == translate(items[k])
  {
    seq(|items|, k requires 0 <= k < |items| => translate(items[k]))
  }

  function TranslatedMetadata(metadata: map<string, MetaValue>, translate: string -> string): map<string, MetaValue> {
    if SendsSupport(metadata) then metadata["support" := MList(TranslatedItems(MetaItems(metadata["support"]), translate))]
    else metadata
  }

  /** The page `translate_page` returns. The new `Header` is built from the
      title, description, metadata and body only; `extractLinks` stands for
      how a page finds the links in its body. */
  function TranslatedPage(tr: Translator, page: Page, translate: string -> string, extractLinks: string -> seq<Link>): Page {
    var content := if SendsBody(page) then translate(page.content) else page.content;
    var h := page.header;
    var header := Header(TranslatedItem(h.title, tr.doTranslateHeaderTitle, translate),
                         TranslatedItem(h.description, tr.doTranslateHeaderDescription, translate),
                         None, None, None, TranslatedMetadata(h.metadata, translate), h.body);
    Page(page.filename, content, header, extractLinks(content))
  }

  /** The texts sent to the service, in order. */
  function OracleCalls(tr: Translator, page: Page): seq<string> {
    var h := page.header;
    (if SendsBody(page) then [page.content] else [])
    + (if SendsItem(h.description, tr.doTranslateHeaderDescription) then [h.description.value] else [])
    + (if SendsItem(h.title, tr.doTranslateHeaderTitle) then [h.title.value] else [])
    + (if SendsSupport(h.metadata) then MetaItems(h.metadata["support"]) else [])
  }

  /** `Translator.translate_page(md_page)`: `calls` lists the texts given to
      the service, in the order the source sends them. */
  method TranslatePage(tr: Translator, page: Page, translate: string -> string, extractLinks: string -> seq<Link>)
    returns (out: Page, calls: seq<string>)
    ensures out == TranslatedPage(tr, page, translate, extractLinks)
    ensures calls == OracleCalls(tr, page)
  {
    var h := page.header;
    var translatedContent, bodyCall;
    if |Strip(page.content)| < MinContentLength {
      translatedContent, bodyCall := page.content, [];
    } else {
      translatedContent, bodyCall := translate(page.content), [page.content];
    }
    var translatedDesc, descCall := TranslateHeaderItem(h.description, tr.doTranslateHeaderDescription, translate);
    var translatedTitle, titleCall := TranslateHeaderItem(h.title, tr.doTranslateHeaderTitle, translate);
    var newMetadata, supportCalls := TranslateMetadata(h.metadata, translate);
    calls := bodyCall + descCall + titleCall + supportCalls;
    var newHeader := Header(translatedTitle, translatedDesc, None, None, None, newMetadata, h.body);
    out := Page(page.filename, translatedContent, newHeader, extractLinks(translatedContent));
  }

  /** A title or description: translated when non-empty and its flag is set. */
  method TranslateHeaderItem(item: Option<string>, flag: bool, translate: string -> string)
    returns (translated: Option<string>, calls: seq<string>)
    ensures translated == TranslatedItem(item, flag, translate)
    ensures calls == if SendsItem(item, flag) then [item.value] else []
  {
    if Truthy(item) && flag {
      translated, calls := Some(translate(item.value)), [item.value];
    } else {
      translated, calls := item, [];
    }
  }

  /** The metadata copy, with a non-empty `support` list translated. */
  method TranslateMetadata(metadata: map<string, MetaValue>, translate: string -> string)
    returns (newMetadata: map<string, MetaValue>, calls: seq<string>)
    ensures newMetadata == TranslatedMetadata(metadata, translate)
    ensures calls == if SendsSupport(metadata) then MetaItems(metadata["support"]) else []
  {
    newMetadata, calls := metadata, [];
    if "support" in metadata {
      if MetaTruthy(metadata["support"]) {
        var supportTranslated;
        supportTranslated, calls := TranslateSupport(MetaItems(metadata["support"]), translate);
        newMetadata := newMetadata["support" := MList(supportTranslated)];
      }
    }
  }

  /** The loop over the `support` items: each is sent and replaced by its
      translation, in order. */
  method TranslateSupport(items: seq<string>, translate: string -> string) returns (translated: seq<string>, calls: seq<string>)
    ensures translated == TranslatedItems(items, translate)
    ensures calls == items
  {
    translated, calls := [], [];
    for k := 0 to |items|
      invariant |translated| == k
      invariant forall j :: 0 <= j < k ==> translated[j] == translate(items[j])
      invariant calls == items[..k]
    {
      translated := translated + [translate(items[k])];
      calls := calls + [items[k]];
      assert items[..k + 1] == items[..k] + [items[k]];
    }
    assert items[..|items|] == items;
  }

  /** A body shorter than `MinContentLength` once stripped is kept and is
      not sent; a longer one is replaced by its translation, and is the
      first text sent. */
  lemma TranslatePageBody(tr: Translator, page: Page, translate: string -> string, extractLinks: string -> seq<Link>)
    ensures var out, calls := TranslatedPage(tr, page, translate, extractLinks), OracleCalls(tr, page);
      && (|Strip(page.content)| < MinContentLength ==> out.content == page.content)
      && (|Strip(page.content)| >= MinContentLength ==> out.content == translate(page.content) && calls[0] == page.content)
      && |calls| == (if |Strip(page.content)| >= MinContentLength then 1 else 0)
                    + (if Truthy(page.header.description) && tr.doTranslateHeaderDescription then 1 else 0)
                    + (if Truthy(page.header.title) && tr.doTranslateHeaderTitle then 1 else 0)
                    + (if "support" in page.header.metadata && MetaTruthy(page.header.metadata["support"])
                       then |MetaItems(page.header.metadata["support"])| else 0)
  {
  }

  /** The description is replaced by its translation exactly when it is
      non-empty and its flag is set, and kept otherwise; the title likewise. */
  lemma TranslatePageHeaderItems(tr: Translator, page: Page, translate: string -> string, extractLinks: string -> seq<Link>)
    ensures var out := TranslatedPage(tr, page, translate, extractLinks);
      && (Truthy(page.header.description) && tr.doTranslateHeaderDescription ==>
            out.header.description == Some(translate(page.header.description.value)))
      && (!(Truthy(page.header.description) && tr.doTranslateHeaderDescription) ==>
            out.header.description == page.header.description)
      && (Truthy(page.header.title) && tr.doTranslateHeaderTitle ==> out.header.title == Some(translate(page.header.title.value)))
      && (!(Truthy(page.header.title) && tr.doTranslateHeaderTitle) ==> out.header.title == page.header.title)
  {
  }

  /** The metadata keeps its keys; every key but `support` keeps its value;
      a non-empty `support` becomes the list of its items' translations, in
      order and of the same length, and an absent or empty one is kept. */
  lemma TranslatePageMetadata(tr: Translator, page: Page, translate: string -> string, extractLinks: string -> seq<Link>)
    ensures var m, m' := page.header.metadata, TranslatedPage(tr, page, translate, extractLinks).header.metadata;
      && m'.Keys == m.Keys
      && (forall key :: key in m && key != "support" ==> m'[key] == m[key])
      && ("support" in m && MetaTruthy(m["support"]) ==>
            m'["support"].MList? && |m'["support"].items| == |MetaItems(m["support"])|
            && forall k :: 0 <= k < |MetaItems(m["support"])| ==> m'["support"].items[k] == translate(MetaItems(m["support"])[k]))
      && (!("support" in m && MetaTruthy(m["support"])) ==> m' == m)
  {
  }

  /** The file name and the header's raw text are carried over; the fields
      the new header is not given are left unset. */
  lemma TranslatePageCarriesOver(tr: Translator, page: Page, translate: string -> string, extractLinks: string -> seq<Link>)
    ensures var out := TranslatedPage(tr, page, translate, extractLinks);
      out.filename == page.filename && out.header.body == page.header.body
      && out.header.slug.None? && out.header.displayedSidebar.None? && out.header.imports.None?
      && out.links == extractLinks(out.content)
  {
  }

  /** With both header flags off, the front-matter check finds the title and
      the description unchanged. */
  lemma UntranslatedHeaderValidates(tr: Translator, page: Page, translate: string -> string, extractLinks: string -> seq<Link>)
    requires !tr.doTranslateHeaderTitle && !tr.doTranslateHeaderDescription
    ensures var v := Validate.ValidateHeaders(page, TranslatedPage(tr, page, translate, extractLinks));
      v.titleMatch && v.descriptionMatch
  {
  }

  // ---------------------------------------------------------------------
  // translate_file
  // ---------------------------------------------------------------------

  /** The original page read from a file and its translation. */
  datatype Translation = Translation(original: Page, translated: Page)

  /** `Translator.translate_file(md_file, remove_comments)` on a file whose
      text is `rawContent`; `fromRaw` stands for `MDPage.from_raw_content`.
      Without comment removal the cleaned text is never assigned, so the
      call fails. */
  method TranslateFile(tr: Translator, mdFile: string, rawContent: string, removeComments: bool,
                       fromRaw: (string, string) -> Page, translate: string -> string, extractLinks: string -> seq<Link>)
    returns (r: Result<Translation>)
    ensures r.Failure? <==> !removeComments
    ensures r.Success? ==> r.value.original == fromRaw(mdFile, Loader.RemoveComments(rawContent))
    ensures r.Success? ==> r.value.translated == TranslatedPage(tr, r.value.original, translate, extractLinks)
  {
    if !removeComments {
      return Failure("UnboundLocalError: raw_content_cleaned");
    }
    var cleaned := Loader.RemoveComments(rawContent);
    var mdPage := fromRaw(mdFile, cleaned);
    var translated, _ := TranslatePage(tr, mdPage, translate, extractLinks);
    r := Success(Translation(mdPage, translated));
  }

  /** `translate_file` as evidently intended: without comment removal the
      page is read from the text as it is, and the call succeeds either way. */
  method TranslateFileIntended(tr: Translator, mdFile: string, rawContent: string, removeComments: bool,
                               fromRaw: (string, string) -> Page, translate: string -> string, extractLinks: string -> seq<Link>)
    returns (t: Translation)
    ensures t.original == fromRaw(mdFile, if removeComments then Loader.RemoveComments(rawContent) else rawContent)
    ensures t.translated == TranslatedPage(tr, t.original, translate, extractLinks)
  {
    var cleaned := rawContent;
    if removeComments {
      cleaned := Loader.RemoveComments(rawContent);
    }
    var mdPage := fromRaw(mdFile, cleaned);
    var translated, _ := TranslatePage(tr, mdPage, translate, extractLinks);
    t := Translation(mdPage, translated);
  }

  // ---------------------------------------------------------------------
  // _translate_file
  // ---------------------------------------------------------------------

  /** The dictionary `_translate_file` returns. */
  datatype FileRecord = Done(originalPage: Option<Page>, translatedPage: Option<Page>, error: Option<string>,
                             inputFile: string, outputFile: string, language: string)

  /** The first attempt in `from..last` that succeeds. */
  function FirstOk(attempt: nat -> Result<Translation>, from: nat, last: nat): (r: Option<nat>)
    ensures r.Some? ==> from <= r.value <= last && attempt(r.value).Success?
    ensures r.Some? ==> forall j :: from <= j < r.value ==> attempt(j).Failure?
    ensures r.None? ==> forall j :: from <= j <= last ==> attempt(j).Failure?
    decreases last + 1 - from
  {
    if from > last then None
    else if attempt(from).Success? then Some(from)
    else FirstOk(attempt, from + 1, last)
  }

  /** What the retry loop returns: nothing when no attempt is allowed, the
      first successful attempt's pages, or the last failure's message. */
  function RetryRecord(attempt: nat -> Result<Translation>, maxRetries: int, inputFile: string, outFile: string, language: string)
    : Option<FileRecord>
  {
    if maxRetries < 1 then None
    else match FirstOk(attempt, 1, maxRetries)
      case Some(k) =>
        Some(Done(Some(attempt(k).value.original), Some(attempt(k).value.translated), None, inputFile, outFile, language))
      case None =>
        Some(Done(None, None, Some(attempt(maxRetries).error), inputFile, outFile, language))
  }

  /** How many attempts the loop makes. */
  function AttemptsMade(attempt: nat -> Result<Translation>, maxRetries: int): nat {
    if maxRetries < 1 then 0
    else match FirstOk(attempt, 1, maxRetries)
      case Some(k) => k
      case None => maxRetries
  }

  lemma FirstOkFrom(attempt: nat -> Result<Translation>, from: nat, k: nat, last: nat)
    requires from <= k && forall j :: from <= j < k ==> attempt(j).Failure?
    ensures FirstOk(attempt, from, last) == FirstOk(attempt, k, last)
    decreases k - from
  {
    if from < k {
      FirstOkFrom(attempt, from + 1, k, last);
    }
  }

  /** The text written to the output file: the translated page of a
      successful record, nothing otherwise. */
  function WrittenText(rec: Option<FileRecord>, render: Page -> string): Option<string> {
    match rec
    case Some(Done(_, Some(translated), None, _, _, _)) => Some(render(translated))
    case _ => None
  }

  /** The retry loop of `_translate_file`: attempt `k` of `1..maxRetries`
      either succeeds, and its pages are returned and written, or fails and
      is followed by a wait, except after the last attempt, whose message is
      returned. */
  method RetryLoop(inputFile: string, outFile: string, language: string, maxRetries: int,
                   attempt: nat -> Result<Translation>, render: Page -> string)
    returns (rec: FileRecord, tries: nat, sleeps: nat, written: Option<string>)
    requires maxRetries >= 1
    ensures Some(rec) == RetryRecord(attempt, maxRetries, inputFile, outFile, language)
    ensures tries == AttemptsMade(attempt, maxRetries) && sleeps == tries - 1
    ensures written == WrittenText(Some(rec), render)
  {
    tries, sleeps := 1, 0;
    var k := 1;
    while true
      invariant 1 <= k <= maxRetries
      invariant forall j :: 1 <= j < k ==> attempt(j).Failure?
      invariant tries == k && sleeps == k - 1
      decreases maxRetries - k
    {
      var outcome := attempt(k);
      if outcome.Success? {
        FirstOkFrom(attempt, 1, k, maxRetries);
        rec := Done(Some(outcome.value.original), Some(outcome.value.translated), None, inputFile, outFile, language);
        written := Some(render(outcome.value.translated));
        return;
      }
      if k == maxRetries {
        FirstOkFrom(attempt, 1, k + 1, maxRetries);
        rec := Done(None, None, Some(outcome.error), inputFile, outFile, language);
        written := None;
        return;
      }
      sleeps := sleeps + 1;
      k := k + 1;
      tries := tries + 1;
    }
  }

  /** `_translate_file(input_file, out_file, ...)` on a file whose text is
      `rawContent`. `attempt(k)` is how the `k`-th attempt's
      `translate_file` call ends, `render(page)` is `str(page)`. `sleeps`
      counts the waits between attempts and `written` is the text written
      to `out_file`. An existing non-empty output is only logged, so neither
      `replace` nor `outExists` changes anything; with fewer than one
      attempt allowed the loop does not run and nothing is returned. */
  method TranslateFileWithRetries(rawContent: string, inputFile: string, outFile: string, language: string,
                                  replace: bool, outExists: bool, maxRetries: int,
                                  attempt: nat -> Result<Translation>, render: Page -> string)
    returns (r: Result<Option<FileRecord>>, tries: nat, sleeps: nat, written: Option<string>)
    ensures r.Failure? <==> Strip(rawContent) == [] || Suffix(inputFile) !in [".md", ".mdx"]
    ensures r.Failure? ==> tries == 0 && sleeps == 0 && written.None?
    ensures r.Success? ==> r.value == RetryRecord(attempt, maxRetries, inputFile, outFile, language)
    ensures r.Success? ==> tries == AttemptsMade(attempt, maxRetries) && sleeps == if tries == 0 then 0 else tries - 1
    ensures r.Success? ==> written == WrittenText(r.value, render)
  {
    if Strip(rawContent) == [] {
      return Failure("ValueError: File " + inputFile + " is empty"), 0, 0, None;
    }
    if Suffix(inputFile) !in [".md", ".mdx"] {
      return Failure("ValueError: File " + inputFile + " is not a markdown file"), 0, 0, None;
    }
    if maxRetries < 1 {
      return Success(None), 0, 0, None;
    }
    var rec;
    rec, tries, sleeps, written := RetryLoop(inputFile, outFile, language, maxRetries, attempt, render);
    r := Success(Some(rec));
  }

  /** With at least one attempt allowed, the record holds the pages of the
      first attempt that succeeds, after every earlier one failed; when all
      fail it holds no page and the message of the last failure. */
  lemma RetryOutcomes(attempt: nat -> Result<Translation>, maxRetries: int, inputFile: string, outFile: string, language: string)
    requires maxRetries >= 1
    ensures var rec := RetryRecord(attempt, maxRetries, inputFile, outFile, language);
      rec.Some? && rec.value.inputFile == inputFile && rec.value.outputFile == outFile
      && (rec.value.error.None? <==> exists k :: 1 <= k <= maxRetries && attempt(k).Success?)
      && (rec.value.error.None? ==>
            exists k :: (1 <= k <= maxRetries && attempt(k).Success?
                         && (forall j :: 1 <= j < k ==> attempt(j).Failure?)
                         && rec.value.originalPage == Some(attempt(k).value.original)
                         && rec.value.translatedPage == Some(attempt(k).value.translated)))
      && (rec.value.error.Some? ==>
            (rec.value.originalPage.None? && rec.value.translatedPage.None?
             && rec.value.error == Some(attempt(maxRetries).error)))
  {
  }

  // ---------------------------------------------------------------------
  // _translate_files
  // ---------------------------------------------------------------------

  /** A path `_translate_files` keeps: a markdown suffix and an existing file. */
  predicate Translatable(f: string, fileExists: string -> bool) {
    Suffix(f) in [".md", ".mdx"] && fileExists(f)
  }

  /** The input filter, in input order. */
  function KeptInputs(files: seq<string>, fileExists: string -> bool): (r: seq<string>)
    ensures |r| <= |files|
  {
    Filter(files, f => Translatable(f, fileExists))
  }

  /** The elements of `xs` that `keep` holds for, in order. */
  function Filter<T>(xs: seq<T>, keep: T -> bool): (r: seq<T>)
    ensures |r| <= |xs|
    ensures forall k :: 0 <= k < |r| ==> keep(r[k])
  {
    if xs == [] then [] else (if keep(xs[0]) then [xs[0]] else []) + Filter(xs[1..], keep)
  }

  /** The filter keeps, in order, exactly the translatable paths, as often as they are given. */
  lemma KeptInputsSelected(files: seq<string>, fileExists: string -> bool)
    ensures IsSubsequence(KeptInputs(files, fileExists), files)
    ensures forall f :: multiset(KeptInputs(files, fileExists))[f] == if Translatable(f, fileExists) then multiset(files)[f] else 0
  {
    FilterSelected(files, f => Translatable(f, fileExists));
  }

  lemma {:induction false} FilterSelected<T>(xs: seq<T>, keep: T -> bool)
    ensures IsSubsequence(Filter(xs, keep), xs)
    ensures forall x :: multiset(Filter(xs, keep))[x] == if keep(x) then multiset(xs)[x] else 0
  {
    if xs != [] {
      FilterSelected(xs[1..], keep);
      var rest := Filter(xs[1..], keep);
      assert xs == [xs[0]] + xs[1..];
      if keep(xs[0]) {
        assert Filter(xs, keep) == [xs[0]] + rest;
        assert Filter(xs, keep)[1..] == rest;
      } else {
        assert Filter(xs, keep) == rest;
      }
    }
  }

  /** Places `x` into a sorted list before the first path it is less than. */
  function InsertPath(x: string, s: seq<string>): (r: seq<string>)
    requires SortedPaths(s)
    ensures multiset(r) == multiset(s) + multiset{x}
    ensures SortedPaths(r)
    ensures r != [] && (r[0] == x || (s != [] && r[0] == s[0]))
  {
    if s == [] then [x]
    else if PathLess(x, s[0]) then
      PathLessAsymmetric(x, s[0]);
      [x] + s
    else
      var rest := InsertPath(x, s[1..]);
      assert s == [s[0]] + s[1..];
      SortedBy(s[0], rest, PathLess);
      [s[0]] + rest
  }

  /** A sorted list stays sorted with a head that its first element is not
      less than. */
  lemma SortedBy<T>(h: T, rest: seq<T>, less: (T, T) -> bool)
    requires forall i :: 0 < i < |rest| ==> !less(rest[i], rest[i - 1])
    requires rest != [] ==> !less(rest[0], h)
    ensures forall i :: 0 < i < |[h] + rest| ==> !less(([h] + rest)[i], ([h] + rest)[i - 1])
  {
    forall i | 0 < i < |[h] + rest| ensures !less(([h] + rest)[i], ([h] + rest)[i - 1]) {
      if i > 1 {
        assert ([h] + rest)[i] == rest[i - 1] && ([h] + rest)[i - 1] == rest[i - 2];
      }
    }
  }

  /** `list.sort()` on paths: the paths in ascending order. */
  function SortPaths(s: seq<string>): (r: seq<string>)
    ensures multiset(r) == multiset(s)
    ensures SortedPaths(r)
  {
    if s == [] then []
    else
      assert s == [s[0]] + s[1..];
      InsertPath(s[0], SortPaths(s[1..]))
  }

  /** One entry of the list `gather_with_progress` returns: the dictionary
      the file's task returned, or `{"error": message}` when the task raised. */
  datatype Entry = Returned(record: FileRecord) | Crashed(message: string)
  {
    /** `entry.get("error")`. */
    function ErrorOf(): Option<string> {
      match this
      case Returned(record) => record.error
      case Crashed(message) => Some(message)
    }
  }

  /** The entry stored for a task that ends with `outcome`. */
  function EntryOf(outcome: Result<FileRecord>): Entry {
    match outcome
    case Success(record) => Returned(record)
    case Failure(e) => Crashed(e)
  }

  /** The results list: the entry of each file, in the order of `files`. */
  function Results(files: seq<string>, run: string -> Result<FileRecord>): (r: seq<Entry>)
    ensures |r| == |files| && forall k :: 0 <= k < |files| ==> r[k] == EntryOf(run(files[k]))
  {
    seq(|files|, k requires 0 <= k < |files| => EntryOf(run(files[k])))
  }

  /** `[r for r in results if r.get("error") is None]`. */
  function Correct(results: seq<Entry>): (r: seq<Entry>)
    ensures forall k :: 0 <= k < |r| ==> r[k].ErrorOf().None?
  {
    Filter(results, (e: Entry) => e.ErrorOf().None?)
  }

  /** `[r for r in results if r.get("error") is not None]`. */
  function Failed(results: seq<Entry>): (r: seq<Entry>)
    ensures forall k :: 0 <= k < |r| ==> r[k].ErrorOf().Some?
  {
    Filter(results, (e: Entry) => e.ErrorOf().Some?)
  }

  /** Both lists keep the order of the results, an entry is in the list its
      error decides, and together they hold every entry exactly once. */
  lemma Partition(results: seq<Entry>)
    ensures IsSubsequence(Correct(results), results) && IsSubsequence(Failed(results), results)
    ensures forall x :: x in Correct(results) <==> x in results && x.ErrorOf().None?
    ensures forall x :: x in Failed(results) <==> x in results && x.ErrorOf().Some?
    ensures multiset(Correct(results)) + multiset(Failed(results)) == multiset(results)
  {
    FilterSelected(results, (e: Entry) => e.ErrorOf().None?);
    FilterSelected(results, (e: Entry) => e.ErrorOf().Some?);
    forall x ensures x in Correct(results) <==> x in results && x.ErrorOf().None? {
      assert x in Correct(results) <==> multiset(Correct(results))[x] > 0;
    }
    FailedMembers(results);
  }

  lemma FailedMembers(results: seq<Entry>)
    ensures forall x :: x in Failed(results) <==> x in results && x.ErrorOf().Some?
  {
    FilterSelected(results, (e: Entry) => e.ErrorOf().Some?);
    forall x ensures x in Failed(results) <==> x in results && x.ErrorOf().Some? {
      assert x in Failed(results) <==> multiset(Failed(results))[x] > 0;
    }
  }

  /** What the batch computes: the files it translates, in order, and the
      results split into successes and failures. */
  datatype FilesOutcome = FilesOutcome(files: seq<string>, correct: seq<Entry>, failed: seq<Entry>)

  /** `_translate_files` with a report that names every failure it can:
      the batch as the source computes it, up to the report loop. */
  function TranslateFilesReported(inputFiles: seq<string>, fileExists: string -> bool, inputFolderIsDir: bool,
                                  run: string -> Result<FileRecord>): (r: Result<FilesOutcome>)
    ensures r.Failure? <==> !inputFolderIsDir
    ensures r.Success? ==> SortedPaths(r.value.files) && multiset(r.value.files) == multiset(KeptInputs(inputFiles, fileExists))
    ensures r.Success? ==>
      var results := Results(r.value.files, run);
      && IsSubsequence(r.value.correct, results) && IsSubsequence(r.value.failed, results)
      && multiset(r.value.correct) + multiset(r.value.failed) == multiset(results)
      && (forall f :: f in r.value.files ==> (EntryOf(run(f)) in r.value.correct <==> EntryOf(run(f)).ErrorOf().None?))
      && (forall f :: f in r.value.files ==> (EntryOf(run(f)) in r.value.failed <==> EntryOf(run(f)).ErrorOf().Some?))
  {
    var files := SortPaths(KeptInputs(inputFiles, fileExists));
    if !inputFolderIsDir then Failure("ValueError: input folder is not a folder")
    else
      var results := Results(files, run);
      Partition(results);
      assert forall f :: f in files ==> EntryOf(run(f)) in results by {
        forall f | f in files ensures EntryOf(run(f)) in results {
          var k :| 0 <= k < |files| && files[k] == f;
          assert results[k] == EntryOf(run(f));
        }
      }
      Success(FilesOutcome(files, Correct(results), Failed(results)))
  }

  /** The report loop reads `result['input_file']` of every failed entry;
      an entry stored for a task that raised has no such key. */
  predicate ReportRaises(failed: seq<Entry>) {
    exists k :: 0 <= k < |failed| && failed[k].Crashed?
  }

  /** `_translate_files(input_files, input_folder, ...)`. `fileExists(f)` is
      `Path(f).exists()`, `run(f)` how translating `f` ends (a raised error
      becomes `{"error": message}`), and `inputFolderIsDir` whether the
      input folder is a directory. When it completes, the outcome is the
      reported one; a file whose translation raised makes the report loop
      raise `KeyError`. */
  function TranslateFiles(inputFiles: seq<string>, fileExists: string -> bool, inputFolderIsDir: bool,
                          run: string -> Result<FileRecord>): (r: Result<FilesOutcome>)
    ensures r.Failure? <==>
      !inputFolderIsDir || exists f :: f in inputFiles && Translatable(f, fileExists) && run(f).Failure?
    ensures inputFolderIsDir && r.Failure? ==> r.error == "KeyError: 'input_file'"
    ensures r.Success? ==> r == TranslateFilesReported(inputFiles, fileExists, inputFolderIsDir, run)
  {
    var reported := TranslateFilesReported(inputFiles, fileExists, inputFolderIsDir, run);
    CrashReported(inputFiles, fileExists, run);
    if reported.Success? && ReportRaises(reported.value.failed) then Failure("KeyError: 'input_file'")
    else reported
  }

  /** The failed list holds an entry without `input_file` exactly when some
      translatable input's task raised. */
  lemma CrashReported(inputFiles: seq<string>, fileExists: string -> bool, run: string -> Result<FileRecord>)
    ensures var files := SortPaths(KeptInputs(inputFiles, fileExists));
      ReportRaises(Failed(Results(files, run)))
      <==> exists f :: f in inputFiles && Translatable(f, fileExists) && run(f).Failure?
  {
    var files := SortPaths(KeptInputs(inputFiles, fileExists));
    SortedKeptMembers(inputFiles, fileExists);
    CrashFailed(files, run);
  }

  /** The sorted files are the translatable inputs. */
  lemma SortedKeptMembers(inputFiles: seq<string>, fileExists: string -> bool)
    ensures forall f :: f in SortPaths(KeptInputs(inputFiles, fileExists)) <==> f in inputFiles && Translatable(f, fileExists)
  {
    var files := SortPaths(KeptInputs(inputFiles, fileExists));
    KeptInputsSelected(inputFiles, fileExists);
    forall f ensures f in files <==> f in inputFiles && Translatable(f, fileExists) {
      assert f in files <==> multiset(files)[f] > 0;
      assert f in inputFiles <==> multiset(inputFiles)[f] > 0;
    }
  }

  /** The failed entries include one stored for a raised error exactly when
      some file's task raised. */
  lemma CrashFailed(files: seq<string>, run: string -> Result<FileRecord>)
    ensures ReportRaises(Failed(Results(files, run))) <==> exists f :: f in files && run(f).Failure?
  {
    if ReportRaises(Failed(Results(files, run))) {
      CrashFromFailed(files, run);
    }
    if exists f :: f in files && run(f).Failure? {
      var f :| f in files && run(f).Failure?;
      CrashToFailed(files, run, f);
    }
  }

  lemma CrashFromFailed(files: seq<string>, run: string -> Result<FileRecord>)
    requires ReportRaises(Failed(Results(files, run)))
    ensures exists f :: f in files && run(f).Failure?
  {
    var results := Results(files, run);
    var failed := Failed(results);
    FailedMembers(results);
    var k :| 0 <= k < |failed| && failed[k].Crashed?;
    assert failed[k] in results;
    var j :| 0 <= j < |results| && results[j] == failed[k];
    assert files[j] in files && run(files[j]).Failure?;
  }

  lemma CrashToFailed(files: seq<string>, run: string -> Result<FileRecord>, f: string)
    requires f in files && run(f).Failure?
    ensures ReportRaises(Failed(Results(files, run)))
  {
    var results := Results(files, run);
    var failed := Failed(results);
    FailedMembers(results);
    var j :| 0 <= j < |files| && files[j] == f;
    assert results[j] in failed;
    var k :| 0 <= k < |failed| && failed[k] == results[j];
    assert failed[k].Crashed?;
  }
}
