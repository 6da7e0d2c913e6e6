/** The glossary filter and the two-message chat prompt. */
module Prompts {
  import opened Wrappers
  import opened Text
  import opened Paths

  /** `LANGUAGES_DICT`: the output languages a prompt can name. */
  const LanguagesDict: map<string, string> :=
    map["es" := "Spanish", "ja" := "Japanese", "fr" := "French", "de" := "German"]

  /** The key of a glossary line: its text before the first `:` (all of it
      when there is none), lowercased. */
  function DictWord(line: string): string {
    Lower(Split(line, ':')[0])
  }

  /** A glossary line is kept when its key occurs in the lowercased query. */
  predicate Keeps(query: string, line: string) {
    Contains(Lower(query), DictWord(line))
  }

  /** The kept lines, in their original order and unmodified. */
  function KeptLines(query: string, lines: seq<string>): seq<string> {
    if lines == [] then []
    else (if Keeps(query, lines[0]) then [lines[0]] else []) + KeptLines(query, lines[1..])
  }

  /** What `filter_dictionary(query, dictionary)` returns. */
  function Filtered(query: string, dictionary: string): string {
    Join(KeptLines(query, Split(dictionary, '\n')), "\n")
  }

  lemma {:induction false} KeptLinesSnoc(query: string, lines: seq<string>, line: string)
    ensures KeptLines(query, lines + [line]) == KeptLines(query, lines) + (if Keeps(query, line) then [line] else [])
  {
    if lines != [] {
      assert (lines + [line])[1..] == lines[1..] + [line];
      KeptLinesSnoc(query, lines[1..], line);
    }
  }

  /** `filter_dictionary(query, dictionary)`: walks the glossary lines and
      appends each one whose key occurs in the query. */
  method FilterDictionary(query: string, dictionary: string) returns (r: string)
    ensures r == Filtered(query, dictionary)
  {
    var lines := Split(dictionary, '\n');
    var filtered: seq<string> := [];
    for i := 0 to |lines|
      invariant filtered == KeptLines(query, lines[..i])
    {
      var line := lines[i];
      var dictWord := Lower(Split(line, ':')[0]);
      if Contains(Lower(query), dictWord) {
        filtered := filtered + [line];
      }
      KeptLinesSnoc(query, lines[..i], line);
      assert lines[..i + 1] == lines[..i] + [line];
    }
    assert lines[..|lines|] == lines;
    r := Join(filtered, "\n");
  }

  /** The kept lines are a subsequence of the glossary lines, and a line is
      among them exactly when it is a glossary line whose key is in the query. */
  lemma {:induction false} KeptLinesAreSelected(query: string, lines: seq<string>)
    ensures IsSubsequence(KeptLines(query, lines), lines)
    ensures forall x :: x in KeptLines(query, lines) <==> x in lines && Keeps(query, x)
  {
    if lines != [] {
      KeptLinesAreSelected(query, lines[1..]);
      var rest := KeptLines(query, lines[1..]);
      if Keeps(query, lines[0]) {
        assert KeptLines(query, lines) == [lines[0]] + rest;
        assert KeptLines(query, lines)[1..] == rest;
      } else {
        assert KeptLines(query, lines) == rest;
      }
    }
  }

  /** When every line is kept the glossary comes back whole. */
  lemma {:induction false} KeptLinesAll(query: string, lines: seq<string>)
    requires forall k :: 0 <= k < |lines| ==> Keeps(query, lines[k])
    ensures KeptLines(query, lines) == lines
  {
    if lines != [] {
      KeptLinesAll(query, lines[1..]);
    }
  }

  /** When no line is kept the result is empty. */
  lemma {:induction false} KeptLinesNone(query: string, lines: seq<string>)
    requires forall k :: 0 <= k < |lines| ==> !Keeps(query, lines[k])
    ensures KeptLines(query, lines) == []
  {
    if lines != [] {
      KeptLinesNone(query, lines[1..]);
    }
  }

  lemma FilteredWhole(query: string, dictionary: string)
    requires forall line :: line in Split(dictionary, '\n') ==> Keeps(query, line)
    ensures Filtered(query, dictionary) == dictionary
  {
    KeptLinesAll(query, Split(dictionary, '\n'));
    JoinSplit(dictionary, '\n');
  }

  lemma FilteredNothing(query: string, dictionary: string)
    requires forall line :: line in Split(dictionary, '\n') ==> !Keeps(query, line)
    ensures Filtered(query, dictionary) == ""
  {
    KeptLinesNone(query, Split(dictionary, '\n'));
  }

  /** The empty string occurs in every string. */
  lemma ContainsEmpty(s: string)
    ensures Contains(s, [])
  {
    assert OccursAt(s, [], 0);
    ContainsIff(s, []);
  }

  /** The part before the first `c` of `key + [c] + rest` is `key`, when `key` has no `c`. */
  lemma {:induction false} SplitFirstPiece(key: string, c: char, rest: string)
    requires c !in key
    ensures Split(key + [c] + rest, c)[0] == key
    decreases |key|
  {
    var s := key + [c] + rest;
    if key == [] {
      assert s[0] == c;
    } else {
      assert s[1..] == key[1..] + [c] + rest;
      SplitFirstPiece(key[1..], c, rest);
      assert [key[0]] + key[1..] == key;
    }
  }

  /** An empty line, or one that starts with `:`, has the empty key, which
      occurs in every query, so it is always kept. */
  lemma EmptyKeyAlwaysKept(query: string, line: string)
    requires line == [] || line[0] == ':'
    ensures Keeps(query, line)
  {
    if line != [] {
      SplitFirstPiece([], ':', line[1..]);
      assert [] + [':'] + line[1..] == line;
    }
    ContainsEmpty(Lower(query));
  }

  /** A line `key:value` is kept exactly when the lowercased key occurs in the
      lowercased query, wherever it occurs: so `key1: value1` is kept for the
      query `prefix_key1 and ...`. */
  lemma KeyValueLine(query: string, key: string, value: string)
    requires ':' !in key
    ensures Keeps(query, key + ":" + value) <==> Contains(Lower(query), Lower(key))
  {
    SplitFirstPiece(key, ':', value);
    assert key + [':'] + value == key + ":" + value;
  }

  /** A line without any `:` is all key. */
  lemma KeyOnlyLine(query: string, line: string)
    requires ':' !in line
    ensures Keeps(query, line) <==> Contains(Lower(query), Lower(line))
  {
    SplitJoin([line], ':');
  }

  /** An empty glossary filters to the empty string: its one empty line is kept. */
  lemma FilteredEmptyDictionary(query: string)
    ensures Filtered(query, "") == ""
  {
    assert Split("", '\n') == [""];
    EmptyKeyAlwaysKept(query, "");
    assert KeptLines(query, [""]) == [""];
  }

  /** One chat message. */
  datatype Message = Message(role: string, content: string)

  /** `PromptTemplate`: the system and human prompt templates, the glossary
      text and the output language code. */
  datatype PromptTemplate = PromptTemplate(systemPrompt: string, humanPrompt: string, dictionary: string, language: string)
  {
    /** `format(md_chunk)`. `render(template, fields)` stands for
        `template.format(**fields)`. Looking the language up in
        `LanguagesDict` fails (a `KeyError`) for a code it does not hold. */
    function Format(mdChunk: string, render: (string, map<string, string>) -> string): (r: Result<seq<Message>>)
      ensures r.Success? <==> language in LanguagesDict
      ensures r.Success? ==> |r.value| == 2 && r.value[0].role == "system" && r.value[1].role == "user"
      ensures r.Success? ==> (r.value[0].content ==
        render(systemPrompt, map["output_language" := LanguagesDict[language], "dictionary" := Filtered(mdChunk, dictionary)]))
      ensures r.Success? ==> r.value[1].content == render(humanPrompt, map["md_chunk" := mdChunk])
    {
      if language !in LanguagesDict then Failure("KeyError: " + language)
      else
        var system := render(systemPrompt, map["output_language" := LanguagesDict[language], "dictionary" := Filtered(mdChunk, dictionary)]);
        var user := render(humanPrompt, map["md_chunk" := mdChunk]);
        Success([Message("system", system), Message("user", user)])
    }
  }

  /** `PromptTemplate.from_files`, given the three files' contents: the
      language is the stem of the glossary file's name. */
  function FromFiles(systemPrompt: string, humanPrompt: string, dictionary: string, dictionaryFile: string): PromptTemplate {
    PromptTemplate(systemPrompt, humanPrompt, dictionary, Stem(dictionaryFile))
  }

  /** A glossary stored as `<dir>/<code>.<ext>` gives the language `code`, and
      formatting then succeeds exactly when `code` is one of the four known
      languages. */
  lemma FromFilesLanguage(systemPrompt: string, humanPrompt: string, dictionary: string, dir: string, code: string, ext: string,
                          mdChunk: string, render: (string, map<string, string>) -> string)
    requires code != [] && '/' !in code
    requires |ext| >= 2 && ext[0] == '.' && '.' !in ext[1..] && '/' !in ext
    ensures var t := FromFiles(systemPrompt, humanPrompt, dictionary, dir + "/" + code + ext);
      t.language == code && (t.Format(mdChunk, render).Success? <==> code in {"es", "ja", "fr", "de"})
  {
    StemAndSuffixOfFile(dir, code, ext);
  }
}
