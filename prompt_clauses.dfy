/** The structure of the system message `create_commit_prompt` in
    `src/python/modules/commitlint/prompts.py` builds: which pieces it
    appends to `system_content`, and in what order, for each configuration.
    The texts of the pieces are in the module Prompts. */
module PromptClauses {
  import opened Strings

  /** The configuration values `create_commit_prompt` consults. */
  datatype PromptConfig = PromptConfig(
    omitScope: bool,
    useEmoji: bool,
    addDescription: bool,
    addWhy: bool,
    oneLineCommit: bool,
    language: string)

  /** The pieces `create_commit_prompt` appends to the system message. */
  datatype Clause =
    | Opening | Mission | ExplainWhy | ExplainWhat | DiffIntro | Emoji | NoPreface
    | DetailedDescription | NoDescription | Language(language: string)
    | OneLineFocus | OneLineTheme | OneLineGoal
    | OmitScope | IncludeScope | FileList(fileNames: string) | SuggestedScope(scope: string)
    | Grouping | FormatRules(omitScope: bool) | Context(context: string)

  /** `", ".join(file_names) if file_names else "unknown"`. */
  function FileNamesText(fileNames: seq<string>): string {
    if |fileNames| > 0 then Join(", ", fileNames) else "unknown"
  }

  /** The clauses whose place is fixed: the opening, the three flag
      choices and the language line. */
  function Head(cfg: PromptConfig): seq<Clause> {
    [Opening, Mission, if cfg.addWhy then ExplainWhy else ExplainWhat, DiffIntro,
     if cfg.useEmoji then Emoji else NoPreface,
     if cfg.addDescription then DetailedDescription else NoDescription,
     Language(cfg.language)]
  }

  function OneLine(oneLineCommit: bool): seq<Clause> {
    if oneLineCommit then [OneLineFocus, OneLineTheme, OneLineGoal] else []
  }

  function ScopeRules(omitScope: bool, fileNames: seq<string>, scope: string): seq<Clause> {
    if omitScope then [OmitScope]
    else [IncludeScope, FileList(FileNamesText(fileNames)), SuggestedScope(scope)]
         + (if |fileNames| > 3 then [Grouping] else [])
  }

  function ContextClause(context: string): seq<Clause> {
    if context != "" then [Context(context)] else []
  }

  /** The clauses of the system message, in the order they are appended,
      for the given file names and the scope suggested for them. */
  function Clauses(cfg: PromptConfig, fileNames: seq<string>, scope: string, context: string): seq<Clause> {
    Head(cfg) + OneLine(cfg.oneLineCommit) + ScopeRules(cfg.omitScope, fileNames, scope)
    + [FormatRules(cfg.omitScope)] + ContextClause(context)
  }

  /** The successive appends to `system_content`, as clauses. */
  method AppendClauses(cfg: PromptConfig, fileNames: seq<string>, scope: string, context: string)
    returns (system: seq<Clause>)
    ensures system == Clauses(cfg, fileNames, scope, context)
  {
    var fileNamesStr := if |fileNames| > 0 then Join(", ", fileNames) else "unknown";
    system := [Opening, Mission];
    if cfg.addWhy {
      system := system + [ExplainWhy];
    } else {
      system := system + [ExplainWhat];
    }
    system := system + [DiffIntro];
    if cfg.useEmoji {
      system := system + [Emoji];
    } else {
      system := system + [NoPreface];
    }
    if cfg.addDescription {
      system := system + [DetailedDescription];
    } else {
      system := system + [NoDescription];
    }
    system := system + [Language(cfg.language)];
    assert system == Head(cfg);
    if cfg.oneLineCommit {
      system := system + [OneLineFocus];
      system := system + [OneLineTheme];
      system := system + [OneLineGoal];
    }
    assert system == Head(cfg) + OneLine(cfg.oneLineCommit);
    ghost var before := system;
    if cfg.omitScope {
      system := system + [OmitScope];
    } else {
      system := system + [IncludeScope];
      system := system + [FileList(fileNamesStr)];
      system := system + [SuggestedScope(scope)];
      if |fileNames| > 3 {
        system := system + [Grouping];
      }
    }
    assert system == before + ScopeRules(cfg.omitScope, fileNames, scope);
    system := system + [FormatRules(cfg.omitScope)];
    if context != "" {
      system := system + [Context(context)];
    }
  }

  /** A clause is in the message when it is in one of its parts. */
  lemma InClauses(cfg: PromptConfig, fileNames: seq<string>, scope: string, context: string, c: Clause)
    ensures c in Clauses(cfg, fileNames, scope, context)
      <==> c in Head(cfg) || c in OneLine(cfg.oneLineCommit) || c in ScopeRules(cfg.omitScope, fileNames, scope)
           || c == FormatRules(cfg.omitScope) || c in ContextClause(context)
  {
    var h, o, r := Head(cfg), OneLine(cfg.oneLineCommit), ScopeRules(cfg.omitScope, fileNames, scope);
    var f, x := [FormatRules(cfg.omitScope)], ContextClause(context);
    assert Clauses(cfg, fileNames, scope, context) == (((h + o) + r) + f) + x;
  }

  /** add_why chooses between the reason and the plain explanation. */
  lemma WhyClause(cfg: PromptConfig, fileNames: seq<string>, scope: string, context: string)
    ensures var cs := Clauses(cfg, fileNames, scope, context);
      (ExplainWhy in cs <==> cfg.addWhy) && (ExplainWhat in cs <==> !cfg.addWhy)
  {
    InClauses(cfg, fileNames, scope, context, ExplainWhy);
    InClauses(cfg, fileNames, scope, context, ExplainWhat);
  }

  /** emoji chooses between the GitMoji convention and the no-preface rule. */
  lemma EmojiClause(cfg: PromptConfig, fileNames: seq<string>, scope: string, context: string)
    ensures var cs := Clauses(cfg, fileNames, scope, context);
      (Emoji in cs <==> cfg.useEmoji) && (NoPreface in cs <==> !cfg.useEmoji)
  {
    InClauses(cfg, fileNames, scope, context, Emoji);
    InClauses(cfg, fileNames, scope, context, NoPreface);
  }

  /** description chooses between a detailed description and none. */
  lemma DescriptionClause(cfg: PromptConfig, fileNames: seq<string>, scope: string, context: string)
    ensures var cs := Clauses(cfg, fileNames, scope, context);
      (DetailedDescription in cs <==> cfg.addDescription) && (NoDescription in cs <==> !cfg.addDescription)
  {
    InClauses(cfg, fileNames, scope, context, DetailedDescription);
    InClauses(cfg, fileNames, scope, context, NoDescription);
  }

  /** The one-line clauses are there exactly for one_line_commit. */
  lemma OneLineClauses(cfg: PromptConfig, fileNames: seq<string>, scope: string, context: string)
    ensures var cs := Clauses(cfg, fileNames, scope, context);
      (OneLineFocus in cs <==> cfg.oneLineCommit) && (OneLineGoal in cs <==> cfg.oneLineCommit)
  {
    InClauses(cfg, fileNames, scope, context, OneLineFocus);
    InClauses(cfg, fileNames, scope, context, OneLineGoal);
  }

  /** omit_scope chooses between the two scope rules; the language line and
      the format rules are always there. */
  lemma ScopeRuleClauses(cfg: PromptConfig, fileNames: seq<string>, scope: string, context: string)
    ensures var cs := Clauses(cfg, fileNames, scope, context);
      && (OmitScope in cs <==> cfg.omitScope) && (IncludeScope in cs <==> !cfg.omitScope)
      && Language(cfg.language) in cs && FormatRules(cfg.omitScope) in cs
  {
    InClauses(cfg, fileNames, scope, context, OmitScope);
    InClauses(cfg, fileNames, scope, context, IncludeScope);
    InClauses(cfg, fileNames, scope, context, Language(cfg.language));
    InClauses(cfg, fileNames, scope, context, FormatRules(cfg.omitScope));
  }

  /** Without omit_scope the message lists the file names (or "unknown") and
      the suggested scope; the grouping advice appears exactly when, in
      addition, more than three files are named. */
  lemma ScopeClauses(cfg: PromptConfig, fileNames: seq<string>, scope: string, context: string)
    ensures var cs := Clauses(cfg, fileNames, scope, context);
      && (!cfg.omitScope ==> FileList(FileNamesText(fileNames)) in cs && SuggestedScope(scope) in cs)
      && (cfg.omitScope ==> forall c :: c in cs ==> !c.FileList? && !c.SuggestedScope?)
      && (Grouping in cs <==> !cfg.omitScope && |fileNames| > 3)
  {
    InClauses(cfg, fileNames, scope, context, FileList(FileNamesText(fileNames)));
    InClauses(cfg, fileNames, scope, context, SuggestedScope(scope));
    InClauses(cfg, fileNames, scope, context, Grouping);
    forall c | c in Clauses(cfg, fileNames, scope, context)
      ensures cfg.omitScope ==> !c.FileList? && !c.SuggestedScope?
    {
      InClauses(cfg, fileNames, scope, context, c);
    }
  }

  /** The message closes with the context when there is one, and with the
      format rules otherwise. */
  lemma LastClause(cfg: PromptConfig, fileNames: seq<string>, scope: string, context: string)
    ensures var cs := Clauses(cfg, fileNames, scope, context);
      cs[|cs| - 1] == (if context != "" then Context(context) else FormatRules(cfg.omitScope))
  {
  }
}
