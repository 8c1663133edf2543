# py-opencommit core, modelled in Dafny

py-opencommit writes commit messages with a language model. Before asking
the model anything, it prepares the git diff, filters files and builds
prompts. This project models the deterministic core of that preparation:

- **`src/python/utils/git.py`** (module `Git`):
  - splitting a staged diff into per-file diffs (`split_diff_by_files`);
  - packing per-file diffs into size-bounded chunks (`merge_diffs`);
  - applying a commit template (`apply_commit_template`);
  - the `.opencommitignore` patterns (`get_opencommit_ignore`);
  - the glob test (`_matches_pattern`);
  - the per-file filter decision (`should_filter_file`).
- **`src/python/modules/commitlint/prompts.py`**:
  - module `Scope`: file names from a diff (`extract_file_names_from_diff`), grouping files by purpose (`group_files_by_type`) and the suggested scope (`get_scope_for_files`);
  - modules `PromptClauses` and `Prompts`: the commit prompt (`create_commit_prompt`) and the consistency prompt (`create_consistency_prompt`);
  - module `ReadableRules`: the commitlint rule sentences (`get_llm_readable_rules`).
- **`src/py_opencommit/i18n/__init__.py`** (module `I18n`):
  - the translation cache with its current language (`load_translations`, `get_text`), as a value-level function `Load`/`Text` and as a class `Translations` whose fields are the module's global state;
  - the language alias table (`get_language_from_alias`).

Module `Strings` holds the Python string operations the core uses. They are `split`, `join`, `strip`, `rstrip`, `startswith`, `endswith`, `in`, ASCII `lower` and list filtering, with the lemmas the proofs need.

Python values are modelled as follows:

- A dict is an insertion-ordered list of pairs; storing under an existing key keeps that key's place.
- A `str` is a `string`.
- A file system read becomes a parameter: the diff text, the text of `.opencommitignore`, whether a path exists and its size, and the contents of each translation file.
- The configuration values the prompt module reads at import time are parameters.

Loops in the source are `method`s with loop invariants. Each method is proved equal to a function stated over the inputs, and the properties are lemmas about those functions.

## Model

| member | source | states |
|---|---|---|
| Git.HeaderPath | src/python/utils/git.py:225-228 | a line is a file header exactly when it starts with "diff --git a/" and a " b/" follows; the file is the text after the first " b/", a suffix of the line |
| Git.Put | src/python/utils/git.py:232 | assigning a dict key: a new key is appended, an existing key keeps its position and the key set, and the new pair is present |
| Git.SplitDiffByFiles | src/python/utils/git.py:210-245 | the loop over the diff's lines computes the specified per-file map, whose entries are keyed by the header's "b" path and whose keys are exactly the non-empty header paths |
| Git.FileDiffsShape | src/python/utils/git.py:227-243 | every entry's text starts with a header line naming its key, the key is non-empty, and every non-empty header path is a key |
| Git.FileDiffsWithoutHeaders | src/python/utils/git.py:220-245 | a diff without a header carrying a non-empty path gives an empty map, with no fallback to the whole diff |
| Git.FileDiffsKeysInOrder | src/python/utils/git.py:227-243 | with distinct header paths, the keys are the header paths in diff order |
| Git.FileDiffsRoundTrip | src/python/utils/git.py:227-243 | when the diff starts with a header and the paths are non-empty and distinct, joining the per-file texts with newlines gives back the diff exactly |
| Git.RepeatedPathOverwrites | src/python/utils/git.py:231-243 | a path that appears twice keeps one key and only the later segment's text |
| Git.PutLookupSame | src/python/utils/git.py:232 | after `d[k] = v`, looking up k gives v |
| Git.PutLookupOther | src/python/utils/git.py:232 | `d[k] = v` leaves the value of every other key unchanged |
| Git.SegmentValue | src/python/utils/git.py:227-243 | for any diff, a path whose header at line i has no later header for the same path maps to the lines from i up to the next header line (or the end) joined with newlines, so a later segment overwrites an earlier one |
| Git.LeadingLinesDropped | src/python/utils/git.py:227-239 | lines before the first header that hold no header and no newline change nothing: the per-file map of the diff with them equals the map without them |
| Git.MergeDiffs | src/python/utils/git.py:248-277 | the loop computes the specified chunk list |
| Git.MergedNotEmpty | src/python/utils/git.py:264-275 | no chunk is empty |
| Git.MergeDiffsPacking | src/python/utils/git.py:248-277 | for non-empty inputs: each chunk is the newline join of a non-empty run of consecutive inputs, and the runs make up the inputs in order; a chunk of two or more inputs is at most max_size + 1 long; an input over max_size is a chunk by itself; a new chunk starts only when the previous chunk plus the next input exceeds max_size |
| Git.MergeDiffsContent | src/python/utils/git.py:248-277 | for non-empty inputs, joining the chunks with newlines equals joining the inputs with newlines |
| Git.DefaultMergeBound | src/python/utils/git.py:12 | with the default limit MAX_DIFF_SIZE = 50000 and non-empty inputs, every chunk is one input as given or at most 50001 characters long |
| Git.MergeMayExceedBound | src/python/utils/git.py:257-270 | the docstring's "each under max_size" does not hold: the separator is not counted, so two 2-character diffs under max_size 4 make one 5-character chunk |
| Git.ApplyCommitTemplate | src/python/utils/git.py:383-395 | the result starts with the stripped message |
| Git.TemplateWithoutComments | src/python/utils/git.py:393-395 | a template without '#' yields exactly the stripped message |
| Git.CommentLinesExact | src/python/utils/git.py:387-389 | a template line is kept exactly when its stripped form starts with '#' |
| Git.TemplateLines | src/python/utils/git.py:386-392 | with comment lines present, the result's lines are the message's lines, one empty line, then the comment lines in template order |
| Git.TemplateMidLineHash | src/python/utils/git.py:386-392 | a '#' that starts no line still takes the comment branch, so the message is followed by a blank line and nothing else |
| Git.GetOpencommitIgnore | src/python/utils/git.py:469-492 | the patterns are the defaults plus the user patterns of the ignore file, if there is one |
| Git.ReadUserPatterns | src/python/utils/git.py:484-487 | the loop over the file's lines collects exactly the stripped, non-empty lines that do not start with '#' |
| Git.UserPatternsFromLines | src/python/utils/git.py:484-487 | every user pattern is the stripped form of some line of the file, non-empty and not a comment |
| Git.LineGivesUserPattern | src/python/utils/git.py:484-487 | every line whose stripped form is non-empty and not a comment contributes that stripped form |
| Git.UserPatternsExactly | src/python/utils/git.py:484-487 | a text is a user pattern exactly when it is non-empty, not a comment, and the stripped form of some line |
| Git.IgnoreSkipsComments | src/python/utils/git.py:477-492 | a pattern starting with '#' can only be a default pattern, never a comment line of the file |
| Git.GlobLiteral | src/python/utils/git.py:513 | a pattern without '*' or '?' matches only the identical path |
| Git.GlobStarSuffix | src/python/utils/git.py:513 | "*" followed by a literal suffix matches exactly the paths that end with that suffix |
| Git.MatchesExtensionExamples | src/python/utils/git.py:507-513 | "*.lock" matches "file.lock" and not "file.txt" |
| Git.MatchesLiteralExamples | src/python/utils/git.py:507-513 | "package-lock.json" matches only itself, not "package.json" |
| Git.MatchesDirectoryExamples | src/python/utils/git.py:507-510 | "dist/*" matches "dist" and "dist/bundle.js", "node_modules/*" matches "node_modules/package/index.js", and "dist/*" does not match "src/dist/file.js" |
| Git.DirectoryPattern | src/python/utils/git.py:507-510 | `_matches_pattern` with `dir + "/*"` holds exactly for dir itself and for paths starting with `dir + "/"` |
| Git.LiteralPattern | src/python/utils/git.py:507-513 | `_matches_pattern` with a pattern holding no '*' or '?' holds exactly for the identical path |
| Git.StarSuffixPattern | src/python/utils/git.py:507-513 | `_matches_pattern` with "*" followed by a literal suffix holds exactly for the paths ending in that suffix |
| Git.ForwardSlashes | src/python/utils/git.py:543 | the path with every backslash replaced by '/', character by character |
| Git.ShouldFilterFile | src/python/utils/git.py:516-551 | a missing file is kept, with reason Missing; an existing file over 1 MiB is filtered for size; otherwise it is filtered exactly when some ignore pattern matches its forward-slash path, the reported pattern is one that matches, and a kept file gets reason Kept |
| Scope.SearchHeader | src/python/modules/commitlint/prompts.py:243-246 | a match on a line is the header test applied at some position of the line |
| Scope.SearchHeaderFindsAny | src/python/modules/commitlint/prompts.py:243-246 | a header occurring anywhere on a line gives a match for that line, because the pattern is not anchored |
| Scope.FileNames | src/python/modules/commitlint/prompts.py:246-249 | no extracted file name is empty |
| Scope.FileNamesAnchored | src/python/modules/commitlint/prompts.py:243-249 | when the header prefix occurs only at line starts, the extracted names are the splitter's header paths |
| Scope.ExtractMatchesSplit | src/python/modules/commitlint/prompts.py:230-251 | with headers only at line starts and distinct paths, the extracted names are exactly the keys of split_diff_by_files, in order |
| Scope.QuotedHeaderCounts | src/python/modules/commitlint/prompts.py:243-249 | an added line that quotes a header yields a file name, although the splitter does not treat it as a header |
| Scope.ConfigByName | src/python/modules/commitlint/prompts.py:278-283 | a path that passes no documentation test but contains "config" is a config file |
| Scope.TestOfConfigIsConfig | src/python/modules/commitlint/prompts.py:282-299 | the config test runs before the test-file test, so "tests/python/test_config.py" is grouped as config |
| Scope.ClassifyFirstMatch | src/python/modules/commitlint/prompts.py:276-307 | a path's category is c exactly when the path passes c's test and fails every test placed before c in the if/elif chain; the core category takes what no test claims |
| Scope.Members | src/python/modules/commitlint/prompts.py:276-307 | a category's group holds exactly the files classified into it |
| Scope.KeepNonEmptyGroups | src/python/modules/commitlint/prompts.py:310 | the closing comprehension keeps exactly the non-empty buckets, in key order |
| Scope.GroupFilesByType | src/python/modules/commitlint/prompts.py:254-310 | the loop computes the specified groups |
| Scope.MembersAppend | src/python/modules/commitlint/prompts.py:276-307 | within a group, files keep their input order |
| Scope.GroupsPartition | src/python/modules/commitlint/prompts.py:254-310 | every input file is in the group of its own category and in no other group |
| Scope.GroupsInKeyOrder | src/python/modules/commitlint/prompts.py:265-274 | the groups come in the dict's initial key order (docs, config, cli, core, utils, commands, modules, tests), each category at most once |
| Scope.GroupSizesAddUp | src/python/modules/commitlint/prompts.py:254-310 | the group sizes add up to the number of files, so no file is lost or duplicated |
| Scope.MinStr | src/python/modules/commitlint/prompts.py:344 | the least string of a non-empty list, in Python's string order (the first step of os.path.commonprefix) |
| Scope.MaxStr | src/python/modules/commitlint/prompts.py:344 | the greatest string of a non-empty list |
| Scope.CommonPrefix2 | src/python/modules/commitlint/prompts.py:344 | a prefix of both strings that stops at the end of one of them or at the first differing character |
| Scope.CommonPrefixLongest | src/python/modules/commitlint/prompts.py:344 | os.path.commonprefix is the longest common prefix: a string is a prefix of every input exactly when it is a prefix of the result |
| Scope.CommonPrefixOfSameElements | src/python/modules/commitlint/prompts.py:344 | the common prefix depends only on which strings occur |
| Scope.ScopeForFiles | src/python/modules/commitlint/prompts.py:313-351 | no files give "unknown"; one file gives its path; two or three files give their paths joined by ", " |
| Scope.ScopeIgnoresOrder | src/python/modules/commitlint/prompts.py:337-351 | from four files on, the scope does not depend on the order of the files |
| Scope.ScopeSharedDirectory | src/python/modules/commitlint/prompts.py:340-346 | four or more files in one group, all below "dir/", get a scope that starts with "dir" |
| PromptClauses.AppendClauses | src/python/modules/commitlint/prompts.py:128-219 | the successive appends to the system message produce the specified piece list for the configuration |
| PromptClauses.InClauses | src/python/modules/commitlint/prompts.py:128-219 | a piece is in the message exactly when one of its fixed, one-line, scope, format or context parts contains it |
| PromptClauses.WhyClause | src/python/modules/commitlint/prompts.py:130-133 | the WHY sentence is present exactly when add_why is set, and the plain sentence exactly when it is not |
| PromptClauses.EmojiClause | src/python/modules/commitlint/prompts.py:137-140 | the GitMoji sentence is present exactly when emoji is on, and the no-preface sentence exactly when it is off |
| PromptClauses.DescriptionClause | src/python/modules/commitlint/prompts.py:142-145 | the detailed-description sentence is present exactly when description is on, and the no-description sentence exactly when it is off |
| PromptClauses.OneLineClauses | src/python/modules/commitlint/prompts.py:149-152 | the one-line sentences are present exactly when one_line_commit is set |
| PromptClauses.ScopeRuleClauses | src/python/modules/commitlint/prompts.py:147-172 | the omit-scope and include-scope rules are present exactly for omit_scope and its negation; the language line and the format rules are always present |
| PromptClauses.ScopeClauses | src/python/modules/commitlint/prompts.py:116-167 | without omit_scope, the file list (or "unknown") and the suggested scope are shown; with omit_scope neither is; the grouping advice appears exactly when the scope is included and more than three files are named |
| PromptClauses.LastClause | src/python/modules/commitlint/prompts.py:175-219 | the message ends with the context when one is given, and with the format rules otherwise |
| Prompts.CreateCommitPrompt | src/python/modules/commitlint/prompts.py:91-227 | the built messages are the specified commit prompt for the diff's file names and their scope |
| Prompts.CommitPromptShape | src/python/modules/commitlint/prompts.py:128-225 | two messages, system then user; the user message is the fixed request followed by the diff; the system message opens with the identity |
| Prompts.ClauseShows | src/python/modules/commitlint/prompts.py:128-219 | the text of every piece chosen for the configuration occurs in the system message |
| Prompts.ContextAppendedWhenGiven | src/python/modules/commitlint/prompts.py:218-219 | a non-empty context ends the system message, behind "Additional context from the user: " |
| Prompts.CreateConsistencyPrompt | src/python/modules/commitlint/prompts.py:354-407 | the built messages are the specified consistency prompt |
| Prompts.ConsistencyPromptShape | src/python/modules/commitlint/prompts.py:370-405 | a system message that opens with the identity, shows the header format the scope setting selects, contains every rule prompt and the localLanguage line; then INIT_DIFF_PROMPT |
| ReadableRules.TypeItemsOf | src/python/modules/commitlint/prompts.py:71-77 | one item per type value, in order |
| ReadableRules.TypeItems | src/python/modules/commitlint/prompts.py:70-78 | the loop builds the specified item list |
| ReadableRules.TypeItemDescribes | src/python/modules/commitlint/prompts.py:73-77 | a known type is followed by its description in parentheses; any other value stands alone |
| ReadableRules.FieldIsFirstSegment | src/python/modules/commitlint/prompts.py:46 | the field named in a sentence is the key up to its first '-' |
| ReadableRules.SuffixDecides | src/python/modules/commitlint/prompts.py:45-85 | the rule suffixes exclude one another, so a key ending in one of them (other than "type-enum") selects that branch whatever the order of the tests |
| ReadableRules.GetLlmReadableRules | src/python/modules/commitlint/prompts.py:41-88 | the sentence built, including the type-enum loop, is the specified rule sentence |
| ReadableRules.RuleNamesField | src/python/modules/commitlint/prompts.py:45-85 | every sentence except the blank-line rule and the fallback opens with "The <field> should <applicable> " |
| ReadableRules.TypeEnumKey | src/python/modules/commitlint/prompts.py:69 | only the key "type-enum" itself takes the type-list branch |
| ReadableRules.TypeEnumDescribesItems | src/python/modules/commitlint/prompts.py:69-85 | type-enum lists its values with descriptions; any other enum key lists the values as they are |
| ReadableRules.OtherRuleNamesKey | src/python/modules/commitlint/prompts.py:88 | the fallback names the whole key and ends with the value |
| ReadableRules.LengthRuleSentences | src/python/modules/commitlint/prompts.py:57-62 | a length rule names the field and the limit, "or less" for the maximum and "or more" for the minimum |
| ReadableRules.LeadingBlankSentence | src/python/modules/commitlint/prompts.py:53-54 | the blank-line rule puts the field last and shows no value |
| I18n.Load | src/py_opencommit/i18n/__init__.py:10-41 | a cached language is returned as cached, reads no file and becomes current; cached tables are never changed; a newly cached table is the requested language's or English's, as its file says; the current language changes only to a cached one |
| I18n.LoadIsDirect | src/py_opencommit/i18n/__init__.py:10-41 | with a cache that agrees with the files, load_translations returns the table read straight from the files with the English fallback for a missing file, and the cache still agrees with the files afterwards |
| I18n.LoadTwice | src/py_opencommit/i18n/__init__.py:16-37 | a language that loads is cached; loading it again reads no file and returns the same table |
| I18n.LoadBrokenFile | src/py_opencommit/i18n/__init__.py:38-41 | an unreadable file gives an empty table and leaves the state, including the current language, unchanged |
| I18n.MissingFallsBackToEnglish | src/py_opencommit/i18n/__init__.py:27-30 | a missing non-English file loads English; only English can be cached or become current, and the requested language stays uncached |
| I18n.TextIsDirect | src/py_opencommit/i18n/__init__.py:44-61 | get_text returns the entry from the language's own file, or the key itself; the cache keeps agreeing with the files |
| I18n.UnknownLanguageGivesKey | src/py_opencommit/i18n/__init__.py:54-61 | under a language without a file, every key comes back unchanged, even though English gets loaded |
| I18n.EnvironmentWins | src/py_opencommit/i18n/__init__.py:49-51 | without an explicit language, PYOC_LANGUAGE wins over the current language |
| I18n.Translations.constructor | src/py_opencommit/i18n/__init__.py:5-7 | the state at import time: nothing cached, English current |
| I18n.Translations.LoadTranslations | src/py_opencommit/i18n/__init__.py:10-41 | updates the cache fields as Load says, returns the directly read table, and keeps the invariant that the cache agrees with the files |
| I18n.Translations.GetText | src/py_opencommit/i18n/__init__.py:44-61 | returns the text and updates the cache fields as Text says, keeping the invariant |
| I18n.LanguageFromAlias | src/py_opencommit/i18n/__init__.py:64-79 | the result is "en" or "es", and there is one exactly when the lower-cased alias is in the table |
| I18n.AliasIgnoresCase | src/py_opencommit/i18n/__init__.py:79 | letter case does not change the lookup |
| I18n.EnglishAliases | src/py_opencommit/i18n/__init__.py:68-79 | "English", "english" and "en" give "en" |
| I18n.UnknownAlias | src/py_opencommit/i18n/__init__.py:68-79 | "unknown_alias" gives None |

## Left out

- Running git, and every subprocess call in `git.py`, is not modelled. The diff, the template text and the ignore file's text are inputs.
- Git.ShouldFilterFile: `Path.exists()` and `stat()` are parameters; a failing `stat` is `None`.
- Git.ShouldFilterFile: the reason is a datatype value, not the message string. The "1.0MB" text and the `{pattern}` interpolation are not modelled.
- Git.ShouldFilterFile: Python iterates a set in an order the model cannot see. The contract therefore promises that some matching pattern is reported, not which one.
- Git.ShouldFilterFile: `str(Path(file_path))` normalisation is left out, for example dropping "./" or a trailing slash. Only the backslash-to-slash conversion is modelled.
- Git.MatchesPattern: `fnmatch` is modelled with `*`, `?` and literal characters only. Bracket classes (`[...]`) are not modelled. The case folding that `fnmatch` applies on case-insensitive platforms is not modelled.
- Git.GetOpencommitIgnore: a file that is missing, or that fails before its first line is read, is `None`. A read that fails part-way keeps the patterns already added, because the `try` wraps the loop; the model covers it when the caller passes the text read before the failure as `Some(...)`. Which prefix a buffered read delivers before failing is not modelled. Lines are split at '\n' and '\r' (universal newlines). The extra empty piece of a "\r\n" is dropped by the blank-line test.
- I18n.LanguageFromAlias: `str.lower()` is modelled for ASCII letters only.
- I18n.Load: JSON parsing is not modelled. A translation file is a table from strings to strings, a missing file, or a file that cannot be read or parsed.
- I18n.Load: the messages `load_translations` prints are not modelled.
- The `PYOC_LANGUAGE` environment variable is a parameter of `Text` and `GetText`.
- Prompts.CreateCommitPrompt: the configuration `get_config()` returns at import time, including `OCO_LANGUAGE`, is a `PromptConfig` parameter. Reading the configuration is not modelled.
- Prompts.CreateConsistencyPrompt: `omit_scope` and the `get_text("localLanguage")` result are parameters. `I18n.Text` models that lookup.
- ReadableRules.ValueText: Python's `str()` of a list is modelled with single quotes and no escaping. A value that is neither a string, an integer, a boolean nor a list of strings is not modelled; floats in particular are not.
- Logging calls and the unused `GIT_ERROR_PATTERN` are not modelled.
