/** The prompts of `src/python/modules/commitlint/prompts.py`: the commit
    prompt and the consistency prompt. The configuration the module reads
    at import time is passed in explicitly.

    A system message is modelled as the list of the pieces the source
    appends to `system_content`, in order; its text is the concatenation
    of the pieces' texts (`Cat`), so appending a piece appends its text. */
module Prompts {
  import opened Strings
  import Scope
  import opened PromptClauses

  /** One chat message. */
  datatype Message = Message(role: string, content: string)


  // ---------------------------------------------------------------------
  // create_commit_prompt

  /** `IDENTITY`. */
  const Identity: string := "You are an AI assistant specialized in generating high-quality git commit messages."

  /** `INIT_DIFF_PROMPT`. */
  const InitDiffPrompt: Message := Message("user", "Here's the git diff output that needs a commit message:")

  const UserPrefix: string := "Generate a commit message for the following git diff:\n\n"
  const ContextPrefix: string := "\nAdditional context from the user: "


  /** The value `structure_of_commit` has when it is used: both branches of
      the scope rule reassign it, so its first value never shows. */
  function Structure(omitScope: bool): string {
    if omitScope then "- Header: <type>: <subject>\n- Body/Footer (Optional): <description>"
    else "- Header: <type>(<scope>): <subject>\n- Body/Footer (Optional): <description>"
  }

  /** The closing block of format rules and examples. */
  function FormatText(omitScope: bool): string {
    "\nYour commit message MUST follow the conventional commit format.\n\nStructure:\n"
    + (Structure(omitScope)
    + ("\n\nHeader Rules:\n- Type: Must be lowercase. Choose from: feat, fix, docs, style, refactor, perf, test, build, ci, chore, revert.\n- Scope: "
    + ((if omitScope then "Should be omitted."
        else "MUST be included in parentheses. Use the suggested scope or a meaningful name reflecting the changed component/files.")
    + ("\n- Subject: Concise description of the change in imperative mood (e.g., 'add', 'fix', 'update'). Do not end with a period. Keep the header line under 72 characters.\n\nBody/Footer Rules (only if OCO_DESCRIPTION=true):\n- Separate header from body with a blank line.\n- Explain WHAT changed and WHY for *all* changes.\n- Keep lines under 72 characters.\n\nIMPORTANT: If the provided diff contains multiple distinct logical changes (e.g., a refactoring AND a new feature, or documentation updates AND a bug fix), you MUST generate a separate conventional commit header line for EACH distinct change. Follow each header line with its corresponding description if OCO_DESCRIPTION is true, or list all headers first followed by a combined description.\n\nExamples (assuming OCO_OMIT_SCOPE=false):\n\nSingle Change:\n```\nfeat(auth): implement OAuth2 authentication flow\n\nAdd OAuth2 authentication support with Google and GitHub providers.\nThis improves security by using industry-standard protocols and allows users\nto log in with existing accounts, reducing onboarding friction.\n```\n\nMultiple Distinct Changes (Example):\n```\nrefactor(auth, user): simplify login logic and database schema\n\nStreamline the authentication process and update user table structure for clarity.\n\nfeat(profile): add user profile editing feature\n\nAllow users to update their display name and profile picture.\n```\n\nNEVER generate a commit message "
    + ((if omitScope then "with a scope in parentheses" else "without a scope in parentheses")
    + ". The scope should be meaningful and reflect the changed files/components for that specific line item.\n")))))
  }

  function Text(c: Clause): string {
    match c
    case Opening => Identity
    case Mission => " Your mission is to create clean and comprehensive commit messages in the conventional commit format."
    case ExplainWhy => " Explain WHAT were the changes and WHY they were done."
    case ExplainWhat => " Explain WHAT were the changes."
    case DiffIntro => " I'll send you an output of 'git diff --staged' command, and you convert it into a commit message.\n"
    case Emoji => "Use GitMoji convention to preface the commit.\n"
    case NoPreface => "Do not preface the commit with anything.\n"
    case DetailedDescription => "Add a detailed description of the changes after the commit message header. Start the description on a new line after a blank line. Don't start it with 'This commit', just describe the changes and their purpose.\n"
    case NoDescription => "Don't add any descriptions to the commit, only the commit message header (type, scope, subject).\n"
    case Language(language) => "Use the present tense. Use " + language + " to answer.\n"
    case OneLineFocus => "Craft a concise commit message header that encapsulates all changes made, with an emphasis on the primary updates. "
    case OneLineTheme => "If the modifications share a common theme or scope, mention it succinctly; otherwise, leave the scope out to maintain focus. "
    case OneLineGoal => "The goal is to provide a clear and unified overview of the changes in a one single message header, without diverging into a list of commit per file change.\n"
    case OmitScope => "Do not include a scope in the commit message format. Use the format: <type>: <subject>\n"
    case IncludeScope => "ALWAYS include a scope in the commit message format. Use the format: <type>(<scope>): <subject>\n"
    case FileList(fileNames) => "The files changed in this commit are: " + fileNames + ".\n"
    case SuggestedScope(scope) => "Based on the files changed, the suggested scope is: '" + scope + "'. Use this suggested scope or a more specific one if appropriate.\n"
    case Grouping => "When multiple files are changed, group them by functionality (e.g., 'cli', 'config', 'docs', 'auth', 'api') rather than listing all filenames.\n"
    case FormatRules(omitScope) => FormatText(omitScope)
    case Context(context) => ContextPrefix + context
  }

  /** The clauses for a diff: its file names and the scope they suggest. */
  function CommitClauses(cfg: PromptConfig, diff: string, context: string): seq<Clause> {
    var fileNames := Scope.ExtractFileNames(diff);
    Clauses(cfg, fileNames, Scope.ScopeForFiles(fileNames), context)
  }

  /** The system message of a commit prompt. */
  function SystemText(cfg: PromptConfig, diff: string, context: string): string {
    Cat(CommitClauses(cfg, diff, context), Text)
  }

  /** What `create_commit_prompt(diff, context)` returns. */
  function CommitPrompt(cfg: PromptConfig, diff: string, context: string): seq<Message> {
    [Message("system", SystemText(cfg, diff, context)), Message("user", UserPrefix + diff)]
  }
  method CreateCommitPrompt(cfg: PromptConfig, diff: string, context: string) returns (messages: seq<Message>)
    ensures messages == CommitPrompt(cfg, diff, context)
  {
    var fileNames := Scope.ExtractFileNames(diff);
    var scope := Scope.ScopeForFiles(fileNames);
    var system := AppendClauses(cfg, fileNames, scope, context);
    messages := [Message("system", Cat(system, Text)), Message("user", UserPrefix + diff)];
  }

  /** Two messages, system then user; the user message is the diff behind a
      fixed request, and the system message opens with the identity. */
  lemma CommitPromptShape(cfg: PromptConfig, diff: string, context: string)
    ensures var m := CommitPrompt(cfg, diff, context);
      && |m| == 2 && m[0].role == "system" && m[1].role == "user"
      && m[1].content == UserPrefix + diff
      && Contains(m[1].content, diff)
      && StartsWith(m[0].content, Identity)
  {
    ContainsMiddle(UserPrefix, diff, "");
    assert UserPrefix + diff + "" == UserPrefix + diff;
    var cs := CommitClauses(cfg, diff, context);
    CatFirst(cs, Text);
  }

  /** The text of every clause occurs in the system message. */
  lemma ClauseShows(cfg: PromptConfig, diff: string, context: string, c: Clause)
    requires c in CommitClauses(cfg, diff, context)
    ensures Contains(SystemText(cfg, diff, context), Text(c))
  {
    var cs := CommitClauses(cfg, diff, context);
    var i :| 0 <= i < |cs| && cs[i] == c;
    CatHolds(cs, i, Text);
  }

  /** A non-empty context is appended, as the last piece, to the message. */
  lemma ContextAppendedWhenGiven(cfg: PromptConfig, diff: string, context: string)
    requires context != ""
    ensures EndsWith(SystemText(cfg, diff, context), ContextPrefix + context)
    ensures Contains(SystemText(cfg, diff, context), context)
  {
    var cs := CommitClauses(cfg, diff, context);
    var fileNames := Scope.ExtractFileNames(diff);
    LastClause(cfg, fileNames, Scope.ScopeForFiles(fileNames), context);
    assert cs[|cs| - 1] == Context(context);
    var system := Cat(cs, Text);
    CatLast(cs, Text);
    CatHolds(cs, |cs| - 1, Text);
    ContainsMiddle(ContextPrefix, context, "");
    assert ContextPrefix + context + "" == ContextPrefix + context;
    ContainsTrans(system, ContextPrefix + context, context);
  }

  // ---------------------------------------------------------------------
  // create_consistency_prompt

  /** The pieces `create_consistency_prompt` appends; consecutive fixed
      lines are grouped into one piece. */
  datatype Section =
    | Preamble | Conventions | HeaderFormat(omitScope: bool) | RuleList(prompts: seq<string>)
    | JsonOpening | LanguageLine(localLanguage: string) | JsonClosing | Notes

  function SectionText(s: Section): string {
    match s
    case Preamble => Identity
    case Conventions => " Your mission is to create clean and comprehensive commit messages for two different changes in a single codebase and output them in the provided JSON format: one for a bug fix and another for a new feature.\n\nHere are the specific requirements and conventions that should be strictly followed:\n\nCommit Message Conventions:\n- The commit message consists of three parts: Header, Body, and Footer.\n"
    case HeaderFormat(omitScope) =>
      if omitScope then "- Header: \n  - Format: `<type>: <subject>`\n"
      else "- Header: \n  - Format: `<type>(<scope>): <subject>`\n"
    case RuleList(prompts) => "- " + Join("\n- ", prompts) + "\n\n"
    case JsonOpening => "JSON Output Format:\n- The JSON output should contain the commit messages for a bug fix and a new feature in the following format:\n```json\n{\n"
    case LanguageLine(localLanguage) => "  \"localLanguage\": \"" + localLanguage + "\",\n"
    case JsonClosing => "  \"commitFix\": \"<Header of commit for bug fix with scope>\",\n  \"commitFeat\": \"<Header of commit for feature with scope>\",\n  \"commitFixOmitScope\": \"<Header of commit for bug fix without scope>\",\n  \"commitFeatOmitScope\": \"<Header of commit for feature without scope>\",\n  \"commitDescription\": \"<Description of commit for both the bug fix and the feature>\"\n}\n```\n\n"
    case Notes => "- The \"commitDescription\" should not include the commit message's header, only the description.\n- Description should not be more than 74 characters.\n\nAdditional Details:\n- Changing the variable 'port' to uppercase 'PORT' is considered a bug fix.\n- Allowing the server to listen on a port specified through the environment variable is considered a new feature.\n\nExample Git Diff is to follow:"
  }

  function Sections(prompts: seq<string>, omitScope: bool, localLanguage: string): seq<Section> {
    [Preamble, Conventions, HeaderFormat(omitScope), RuleList(prompts), JsonOpening,
     LanguageLine(localLanguage), JsonClosing, Notes]
  }

  /** What `create_consistency_prompt(prompts)` returns, with `omit_scope` and
      the translated `localLanguage` text as parameters. */
  function ConsistencyPrompt(prompts: seq<string>, omitScope: bool, localLanguage: string): seq<Message> {
    [Message("system", Cat(Sections(prompts, omitScope, localLanguage), SectionText)), InitDiffPrompt]
  }

  method CreateConsistencyPrompt(prompts: seq<string>, omitScope: bool, localLanguage: string)
    returns (messages: seq<Message>)
    ensures messages == ConsistencyPrompt(prompts, omitScope, localLanguage)
  {
    var system := [Preamble, Conventions];
    system := system + [HeaderFormat(omitScope)];
    system := system + [RuleList(prompts)];
    system := system + [JsonOpening];
    system := system + [LanguageLine(localLanguage)];
    system := system + [JsonClosing];
    system := system + [Notes];
    assert system == Sections(prompts, omitScope, localLanguage);
    messages := [Message("system", Cat(system, SectionText)), InitDiffPrompt];
  }

  /** A system message that opens with the identity, shows the header format
      the scope setting asks for, lists every rule prompt and names the
      language; then the fixed diff prompt. */
  lemma ConsistencyPromptShape(prompts: seq<string>, omitScope: bool, localLanguage: string)
    ensures var m := ConsistencyPrompt(prompts, omitScope, localLanguage);
      && |m| == 2 && m[0].role == "system" && m[1] == InitDiffPrompt
      && StartsWith(m[0].content, Identity)
      && Contains(m[0].content, SectionText(HeaderFormat(omitScope)))
      && Contains(m[0].content, "  \"localLanguage\": \"" + localLanguage + "\",\n")
      && (forall i :: 0 <= i < |prompts| ==> Contains(m[0].content, prompts[i]))
  {
    var ss := Sections(prompts, omitScope, localLanguage);
    var system := Cat(ss, SectionText);
    CatFirst(ss, SectionText);
    CatHolds(ss, 2, SectionText);
    CatHolds(ss, 5, SectionText);
    CatHolds(ss, 3, SectionText);
    forall i | 0 <= i < |prompts|
      ensures Contains(system, prompts[i])
    {
      var list := SectionText(RuleList(prompts));
      JoinHolds("\n- ", prompts, i);
      ContainsMiddle("- ", Join("\n- ", prompts), "\n\n");
      ContainsTrans(list, Join("\n- ", prompts), prompts[i]);
      ContainsTrans(system, list, prompts[i]);
    }
  }
}
