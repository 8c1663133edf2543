/** The commitlint rule sentences of `get_llm_readable_rules` in
    `src/python/modules/commitlint/prompts.py`. */
module ReadableRules {
  import opened Strings


  /** The rule values the sentences interpolate. */
  datatype RuleValue = NoValue | Flag(b: bool) | Number(n: int) | Words(s: string) | Items(items: seq<string>)

  /** `str(value)`; list items are shown in single quotes without escaping. */
  function ValueText(v: RuleValue): string {
    match v
    case NoValue => "None"
    case Flag(b) => if b then "True" else "False"
    case Number(n) => IntToString(n)
    case Words(s) => s
    case Items(items) => "[" + Join(", ", Quoted(items)) + "]"
  }

  function Quoted(items: seq<string>): (r: seq<string>)
    ensures |r| == |items|
  {
    if |items| == 0 then [] else ["'" + items[0] + "'"] + Quoted(items[1..])
  }

  /** `TYPE_DESCRIPTIONS`. */
  const TypeDescriptions: map<string, string> := map[
    "feat" := "A new feature",
    "fix" := "A bug fix",
    "docs" := "Documentation only changes",
    "style" := "Changes that do not affect the meaning of the code (white-space, formatting, etc)",
    "refactor" := "A code change that neither fixes a bug nor adds a feature",
    "perf" := "A code change that improves performance",
    "test" := "Adding missing tests or correcting existing tests",
    "build" := "Changes that affect the build system or external dependencies",
    "ci" := "Changes to CI configuration files and scripts",
    "chore" := "Other changes that don't modify src or test files",
    "revert" := "Reverts a previous commit"
  ]

  /** `TYPE_DESCRIPTIONS.get(v, "")`. */
  function Description(v: string): string {
    if v in TypeDescriptions then TypeDescriptions[v] else ""
  }

  function TypeItem(v: string): string {
    if Description(v) != "" then v + " (" + Description(v) + ")" else v
  }

  /** The list the `type-enum` branch builds. */
  function TypeItemsOf(values: seq<string>): (r: seq<string>)
    ensures |r| == |values|
    ensures forall i :: 0 <= i < |values| ==> r[i] == TypeItem(values[i])
  {
    if |values| == 0 then [] else [TypeItem(values[0])] + TypeItemsOf(values[1..])
  }

  /** The loop over the values of a `type-enum` rule. */
  method TypeItems(values: seq<string>) returns (items: seq<string>)
    ensures items == TypeItemsOf(values)
  {
    items := [];
    for i := 0 to |values|
      invariant items == TypeItemsOf(values[..i])
    {
      var description := if values[i] in TypeDescriptions then TypeDescriptions[values[i]] else "";
      assert values[..i + 1] == values[..i] + [values[i]];
      if description != "" {
        items := items + [values[i] + " (" + description + ")"];
      } else {
        items := items + [values[i]];
      }
    }
    assert values[..|values|] == values;
  }

  /** A known type is followed by its description, any other value stands alone. */
  lemma TypeItemDescribes(v: string)
    ensures v in TypeDescriptions ==> TypeItem(v) == v + " (" + TypeDescriptions[v] + ")"
    ensures v !in TypeDescriptions ==> TypeItem(v) == v
    ensures StartsWith(TypeItem(v), v)
  {
  }

  /** `key.split('-')[0]`. */
  function Field(key: string): string {
    Split(key, {'-'})[0]
  }

  /** The field is the text before the first '-'. */
  lemma {:induction false} FieldIsFirstSegment(key: string)
    ensures StartsWith(key, Field(key)) && '-' !in Field(key)
    ensures |Field(key)| < |key| ==> key[|Field(key)|] == '-'
  {
    if |key| > 0 && key[0] != '-' {
      FieldIsFirstSegment(key[1..]);
      var rest := Split(key[1..], {'-'});
      assert Field(key) == [key[0]] + rest[0];
      assert key[..|Field(key)|] == [key[0]] + key[1..][..|rest[0]|];
    }
  }

  /** The branch of `get_llm_readable_rules` a key selects. */
  datatype RuleKind =
    | CaseRule | EmptyRule | LeadingBlankRule | MaxLengthRule | MinLengthRule
    | FullStopRule | TypeEnumRule | EnumRule | OtherRule

  /** The first test that accepts the key, in the order of the source. */
  function KindOf(key: string): RuleKind {
    if EndsWith(key, "-case") then CaseRule
    else if EndsWith(key, "-empty") then EmptyRule
    else if EndsWith(key, "-leading-blank") then LeadingBlankRule
    else if EndsWith(key, "-max-length") then MaxLengthRule
    else if EndsWith(key, "-min-length") then MinLengthRule
    else if EndsWith(key, "-full-stop") then FullStopRule
    else if key == "type-enum" then TypeEnumRule
    else if EndsWith(key, "-enum") then EnumRule
    else OtherRule
  }

  /** The key suffix that selects a kind. */
  function Suffix(k: RuleKind): string {
    match k
    case CaseRule => "-case"
    case EmptyRule => "-empty"
    case LeadingBlankRule => "-leading-blank"
    case MaxLengthRule => "-max-length"
    case MinLengthRule => "-min-length"
    case FullStopRule => "-full-stop"
    case TypeEnumRule => "-enum"
    case EnumRule => "-enum"
    case OtherRule => ""
  }

  /** Two suffixes that differ in the k-th character from the end cannot
      both end the same key. */
  lemma EndsWithDiffer(key: string, s: string, t: string, k: nat)
    requires EndsWith(key, s) && k < |s| && k < |t| && s[|s| - 1 - k] != t[|t| - 1 - k]
    ensures !EndsWith(key, t)
  {
    assert key[|key| - |s|..][|s| - 1 - k] == key[|key| - 1 - k];
    if |t| <= |key| {
      assert key[|key| - |t|..][|t| - 1 - k] == key[|key| - 1 - k];
    }
  }

  /** The suffixes exclude each other, so the order of the tests only
      matters for `type-enum`, which also ends with "-enum": a key that ends
      with one of them selects that one's branch. */
  lemma SuffixDecides(key: string, k: RuleKind)
    requires !k.OtherRule? && !k.TypeEnumRule? && key != "type-enum"
    requires EndsWith(key, Suffix(k))
    ensures KindOf(key) == k
  {
    match k
    case CaseRule =>
    case EmptyRule =>
      EndsWithDiffer(key, "-empty", "-case", 0);
    case LeadingBlankRule =>
      EndsWithDiffer(key, "-leading-blank", "-case", 0);
      EndsWithDiffer(key, "-leading-blank", "-empty", 0);
    case MaxLengthRule => MaxLengthDecides(key);
    case MinLengthRule => MinLengthDecides(key);
    case FullStopRule => FullStopDecides(key);
    case EnumRule => EnumDecides(key);
  }

  lemma MaxLengthDecides(key: string)
    requires EndsWith(key, "-max-length")
    ensures KindOf(key) == MaxLengthRule
  {
    EndsWithDiffer(key, "-max-length", "-case", 0);
    EndsWithDiffer(key, "-max-length", "-empty", 0);
    EndsWithDiffer(key, "-max-length", "-leading-blank", 0);
  }

  lemma MinLengthDecides(key: string)
    requires EndsWith(key, "-min-length")
    ensures KindOf(key) == MinLengthRule
  {
    EndsWithDiffer(key, "-min-length", "-case", 0);
    EndsWithDiffer(key, "-min-length", "-empty", 0);
    EndsWithDiffer(key, "-min-length", "-leading-blank", 0);
    EndsWithDiffer(key, "-min-length", "-max-length", 7);
  }

  lemma FullStopDecides(key: string)
    requires EndsWith(key, "-full-stop")
    ensures KindOf(key) == FullStopRule
  {
    EndsWithDiffer(key, "-full-stop", "-case", 0);
    EndsWithDiffer(key, "-full-stop", "-empty", 0);
    EndsWithDiffer(key, "-full-stop", "-leading-blank", 0);
    EndsWithDiffer(key, "-full-stop", "-max-length", 0);
    EndsWithDiffer(key, "-full-stop", "-min-length", 0);
  }

  lemma EnumDecides(key: string)
    requires EndsWith(key, "-enum") && key != "type-enum"
    ensures KindOf(key) == EnumRule
  {
    EndsWithDiffer(key, "-enum", "-case", 0);
    EndsWithDiffer(key, "-enum", "-empty", 0);
    EndsWithDiffer(key, "-enum", "-leading-blank", 0);
    EndsWithDiffer(key, "-enum", "-max-length", 0);
    EndsWithDiffer(key, "-enum", "-min-length", 0);
    EndsWithDiffer(key, "-enum", "-full-stop", 0);
  }

  /** "The <field> should <applicable>". */
  function Subject(field: string, applicable: string): string {
    "The " + field + " should " + applicable
  }

  const EnumIntro: string := " be one of the following values:\n  - "
  const EnumPlain: string := " be one of the following values: "

  /** `value` where a case name is expected. */
  function CaseName(value: RuleValue): string {
    match value
    case Words(s) => s
    case Items(items) => Join(", ", items)
    case _ => "proper"
  }

  /** `get_llm_readable_rules(key, applicable, value)`. */
  function ReadableRule(key: string, applicable: string, value: RuleValue): string {
    var subject := Subject(Field(key), applicable);
    match KindOf(key)
    case CaseRule => subject + " be in " + CaseName(value) + " case."
    case EmptyRule => subject + " be empty."
    case LeadingBlankRule => "There should " + applicable + " be a blank line at the beginning of the " + Field(key) + "."
    case MaxLengthRule => subject + " have " + ValueText(value) + " characters or less."
    case MinLengthRule => subject + " have " + ValueText(value) + " characters or more."
    case FullStopRule => subject + " end with '" + ValueText(value) + "'."
    case TypeEnumRule =>
      if value.Items? then Subject("type", applicable) + EnumIntro + Join("\n  - ", TypeItemsOf(value.items))
      else Subject("type", applicable) + EnumPlain + ValueText(value)
    case EnumRule =>
      if value.Items? then subject + EnumIntro + Join("\n  - ", value.items)
      else subject + EnumPlain + ValueText(value)
    case OtherRule => Subject(key, applicable) + " follow the rule with value: " + ValueText(value)
  }

  /** The rule sentence, building the described type list with its loop. */
  method GetLlmReadableRules(key: string, applicable: string, value: RuleValue) returns (r: string)
    ensures r == ReadableRule(key, applicable, value)
  {
    if KindOf(key) == TypeEnumRule && value.Items? {
      var items := TypeItems(value.items);
      r := Subject("type", applicable) + EnumIntro + Join("\n  - ", items);
    } else {
      r := ReadableRule(key, applicable, value);
    }
  }

  /** A text without separators splits into itself. */
  lemma {:induction false} SplitWithoutSeparator(s: string, seps: set<char>)
    requires forall i :: 0 <= i < |s| ==> s[i] !in seps
    ensures Split(s, seps) == [s]
  {
    if |s| > 0 {
      SplitWithoutSeparator(s[1..], seps);
      assert [s[0]] + s[1..] == s;
    }
  }

  /** The field of a key is what comes before its first '-'. */
  lemma FieldBeforeDash(a: string, b: string)
    requires forall i :: 0 <= i < |a| ==> a[i] != '-'
    ensures Field(a + "-" + b) == a
  {
    SplitConcat(a, b, '-', {'-'});
    SplitWithoutSeparator(a, {'-'});
  }

  lemma EndsWithAppend(a: string, b: string)
    ensures EndsWith(a + b, b)
  {
    assert (a + b)[|a + b| - |b|..] == b;
  }

  lemma FieldOfTypeEnum()
    ensures Field("type-enum") == "type"
  {
    FieldBeforeDash("type", "enum");
    assert "type" + "-" + "enum" == "type-enum";
  }

  /** A text that goes on with a blank after the subject opens with it. */
  lemma SpacedOpening(subject: string, word: string, rest: string)
    requires |word| > 0 && word[0] == ' '
    ensures StartsWith(subject + word + rest, subject + " ")
  {
    var r := subject + word + rest;
    assert r[..|subject| + 1] == subject + " " by {
      assert forall i :: 0 <= i < |subject| ==> r[i] == subject[i];
      assert r[|subject|] == word[0];
    }
  }

  lemma CaseAndEmptyOpening(key: string, applicable: string, value: RuleValue)
    requires KindOf(key).CaseRule? || KindOf(key).EmptyRule?
    ensures StartsWith(ReadableRule(key, applicable, value), Subject(Field(key), applicable) + " ")
  {
    var subject := Subject(Field(key), applicable);
    if KindOf(key).CaseRule? {
      SpacedOpening(subject, " be in " + CaseName(value), " case.");
    } else {
      SpacedOpening(subject, " be empty.", "");
      assert subject + " be empty." + "" == subject + " be empty.";
    }
  }

  lemma LengthOpening(key: string, applicable: string, value: RuleValue)
    requires KindOf(key).MaxLengthRule? || KindOf(key).MinLengthRule?
    ensures StartsWith(ReadableRule(key, applicable, value), Subject(Field(key), applicable) + " ")
  {
    var subject := Subject(Field(key), applicable);
    if KindOf(key).MaxLengthRule? {
      SpacedOpening(subject, " have " + ValueText(value), " characters or less.");
    } else {
      SpacedOpening(subject, " have " + ValueText(value), " characters or more.");
    }
  }

  lemma FullStopAndEnumOpening(key: string, applicable: string, value: RuleValue)
    requires KindOf(key).FullStopRule? || KindOf(key).EnumRule?
    ensures StartsWith(ReadableRule(key, applicable, value), Subject(Field(key), applicable) + " ")
  {
    var subject := Subject(Field(key), applicable);
    if KindOf(key).FullStopRule? {
      SpacedOpening(subject, " end with '" + ValueText(value), "'.");
    } else if value.Items? {
      SpacedOpening(subject, EnumIntro, Join("\n  - ", value.items));
    } else {
      SpacedOpening(subject, EnumPlain, ValueText(value));
    }
  }

  /** Only "type-enum" itself selects the type list. */
  lemma TypeEnumKey(key: string)
    requires KindOf(key).TypeEnumRule?
    ensures key == "type-enum"
  {
  }

  /** A helper naming the sentence of the type-enum branch. */
  function TypeEnumSentence(applicable: string, value: RuleValue): string {
    if value.Items? then Subject("type", applicable) + EnumIntro + Join("\n  - ", TypeItemsOf(value.items))
    else Subject("type", applicable) + EnumPlain + ValueText(value)
  }

  lemma TypeEnumRuleSentence(key: string, applicable: string, value: RuleValue)
    requires key == "type-enum" && KindOf(key).TypeEnumRule?
    ensures ReadableRule(key, applicable, value) == TypeEnumSentence(applicable, value)
  {
  }

  lemma TypeEnumSentenceOpening(applicable: string, value: RuleValue)
    ensures StartsWith(TypeEnumSentence(applicable, value), Subject("type", applicable) + " ")
  {
    var subject := Subject("type", applicable);
    if value.Items? {
      SpacedOpening(subject, EnumIntro, Join("\n  - ", TypeItemsOf(value.items)));
    } else {
      SpacedOpening(subject, EnumPlain, ValueText(value));
    }
  }

  lemma TypeEnumOpening(key: string, applicable: string, value: RuleValue)
    requires KindOf(key).TypeEnumRule?
    ensures StartsWith(ReadableRule(key, applicable, value), Subject(Field(key), applicable) + " ")
  {
    TypeEnumKey(key);
    FieldOfTypeEnum();
    TypeEnumRuleSentence(key, applicable, value);
    TypeEnumSentenceOpening(applicable, value);
  }

  /** Every sentence but the blank-line one and the fallback opens with the
      field before the first '-' and the applicability word. */
  lemma RuleNamesField(key: string, applicable: string, value: RuleValue)
    requires !KindOf(key).LeadingBlankRule? && !KindOf(key).OtherRule?
    ensures StartsWith(ReadableRule(key, applicable, value), Subject(Field(key), applicable) + " ")
  {
    match KindOf(key)
    case CaseRule => CaseAndEmptyOpening(key, applicable, value);
    case EmptyRule => CaseAndEmptyOpening(key, applicable, value);
    case MaxLengthRule => LengthOpening(key, applicable, value);
    case MinLengthRule => LengthOpening(key, applicable, value);
    case FullStopRule => FullStopAndEnumOpening(key, applicable, value);
    case EnumRule => FullStopAndEnumOpening(key, applicable, value);
    case TypeEnumRule => TypeEnumOpening(key, applicable, value);
  }

  /** The fallback names the whole key and shows the value last. */
  lemma OtherRuleNamesKey(key: string, applicable: string, value: RuleValue)
    requires KindOf(key) == OtherRule
    ensures StartsWith(ReadableRule(key, applicable, value), Subject(key, applicable))
    ensures EndsWith(ReadableRule(key, applicable, value), ValueText(value))
  {
    var r := ReadableRule(key, applicable, value);
    var p := Subject(key, applicable) + " follow the rule with value: ";
    StartsWithAppend(Subject(key, applicable), " follow the rule with value: " + ValueText(value));
    assert r == p + ValueText(value);
    assert r[|r| - |ValueText(value)|..] == ValueText(value);
  }

  /** `type-enum` is checked before the general `-enum` suffix, so only type
      lists carry descriptions; another enum lists its values as they are. */
  lemma TypeEnumDescribesItems(key: string, applicable: string, values: seq<string>)
    requires EndsWith(key, "-enum")
    ensures key == "type-enum" ==> (ReadableRule(key, applicable, Items(values))
      == Subject("type", applicable) + EnumIntro + Join("\n  - ", TypeItemsOf(values)))
    ensures key != "type-enum" ==> (ReadableRule(key, applicable, Items(values))
      == Subject(Field(key), applicable) + EnumIntro + Join("\n  - ", values))
  {
    if key != "type-enum" {
      SuffixDecides(key, EnumRule);
    }
  }

  /** A length rule on a field names the field and interpolates the limit. */
  lemma LengthRuleSentences(field: string, applicable: string, value: RuleValue)
    requires forall i :: 0 <= i < |field| ==> field[i] != '-'
    ensures ReadableRule(field + "-max-length", applicable, value)
      == Subject(field, applicable) + " have " + ValueText(value) + " characters or less."
    ensures ReadableRule(field + "-min-length", applicable, value)
      == Subject(field, applicable) + " have " + ValueText(value) + " characters or more."
  {
    FieldBeforeDash(field, "max-length");
    assert field + "-" + "max-length" == field + "-max-length";
    EndsWithAppend(field, "-max-length");
    assert |field + "-max-length"| != |"type-enum"|;
    SuffixDecides(field + "-max-length", MaxLengthRule);
    FieldBeforeDash(field, "min-length");
    assert field + "-" + "min-length" == field + "-min-length";
    EndsWithAppend(field, "-min-length");
    assert |field + "-min-length"| != |"type-enum"|;
    SuffixDecides(field + "-min-length", MinLengthRule);
  }

  /** A blank-line rule puts the field last and interpolates no value. */
  lemma LeadingBlankSentence(field: string, applicable: string, value: RuleValue)
    requires forall i :: 0 <= i < |field| ==> field[i] != '-'
    ensures ReadableRule(field + "-leading-blank", applicable, value)
      == "There should " + applicable + " be a blank line at the beginning of the " + field + "."
  {
    FieldBeforeDash(field, "leading-blank");
    assert field + "-" + "leading-blank" == field + "-leading-blank";
    EndsWithAppend(field, "-leading-blank");
    assert |field + "-leading-blank"| != |"type-enum"|;
    SuffixDecides(field + "-leading-blank", LeadingBlankRule);
  }
}
