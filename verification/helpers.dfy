/** The small string helpers of the result cards: `cleanPhoneNumber`,
    `escapeRegex`, `findFieldValue` and `getIconForColumn`. */
module Helpers {
  import opened Seqs
  import opened Text
  import opened Records

  // ---------------------------------------------------------------------
  // cleanPhoneNumber
  // ---------------------------------------------------------------------

  /** The characters `cleanPhoneNumber` deletes: white space (`\s`), dashes,
      parentheses and plus signs. */
  predicate IsPhonePunctuation(c: char) {
    IsSpace(c) || c == '-' || c == '(' || c == ')' || c == '+'
  }

  predicate KeptInPhone(c: char) {
    !IsPhonePunctuation(c)
  }

  /** `cleanPhoneNumber`: the number with its punctuation deleted. */
  function CleanPhoneNumber(phone: string): (r: string)
    ensures |r| <= |phone|
    ensures forall k | 0 <= k < |r| :: !IsPhonePunctuation(r[k])
  {
    Filter(phone, KeptInPhone)
  }

  /** The cleaned number is the original with exactly the punctuation
      removed: the other characters stay, in order, each as often as
      before. */
  lemma {:induction false} CleanPhoneNumberExact(phone: string)
    ensures IsSubsequence(CleanPhoneNumber(phone), phone)
    ensures forall c ::
      multiset(CleanPhoneNumber(phone))[c] == (if IsPhonePunctuation(c) then 0 else multiset(phone)[c])
  {
    FilterIsSubsequence(phone, KeptInPhone);
    FilterMultiset(phone, KeptInPhone);
  }

  /** Cleaning twice is cleaning once. */
  lemma {:induction false} CleanPhoneNumberIdempotent(phone: string)
    ensures CleanPhoneNumber(CleanPhoneNumber(phone)) == CleanPhoneNumber(phone)
  {
    FilterIdempotent(phone, KeptInPhone);
  }

  /** A number without punctuation is left as it is. */
  lemma {:induction false} CleanPhoneNumberOfClean(phone: string)
    requires forall k | 0 <= k < |phone| :: !IsPhonePunctuation(phone[k])
    ensures CleanPhoneNumber(phone) == phone
  {
    FilterAll(phone, KeptInPhone);
  }

  // ---------------------------------------------------------------------
  // escapeRegex
  // ---------------------------------------------------------------------

  /** The characters `escapeRegex` quotes: `. * + ? ^ $ { } ( ) | [ ] \`. */
  predicate IsRegexSpecial(c: char) {
    c in ".*+?^${}()|[]\\"
  }

  /** One character of `escapeRegex`'s output: a special character with a
      backslash in front, any other as it is. */
  function EscapeChar(c: char): string {
    if IsRegexSpecial(c) then ['\\', c] else [c]
  }

  /** A pattern that matches only itself, literally: every special character
      in it is quoted by a backslash, and every backslash quotes one. */
  predicate IsLiteralPattern(p: string)
    decreases |p|
  {
    if |p| == 0 then true
    else if p[0] == '\\' then |p| >= 2 && IsRegexSpecial(p[1]) && IsLiteralPattern(p[2..])
    else !IsRegexSpecial(p[0]) && IsLiteralPattern(p[1..])
  }

  /** `escapeRegex`: the text as a literal pattern, one backslash longer per
      special character. */
  function EscapeRegex(text: string): (r: string)
    ensures IsLiteralPattern(r)
    ensures |r| == |text| + |Filter(text, IsRegexSpecial)|
    decreases |text|
  {
    if |text| == 0 then ""
    else
      var rest := EscapeRegex(text[1..]);
      var e := EscapeChar(text[0]);
      assert (e + rest)[|e|..] == rest;
      if IsRegexSpecial(text[0]) then
        assert (e + rest)[1..][1..] == rest;
        e + rest
      else
        e + rest
  }

  /** What a literal pattern matches: each quoted character stands for
      itself, the backslash dropped. */
  function Unescape(p: string): string
    decreases |p|
  {
    if |p| == 0 then ""
    else if p[0] == '\\' && |p| >= 2 then [p[1]] + Unescape(p[2..])
    else [p[0]] + Unescape(p[1..])
  }

  /** The escaped pattern matches exactly the original text. */
  lemma {:induction false} UnescapeEscapeRegex(text: string)
    ensures Unescape(EscapeRegex(text)) == text
    decreases |text|
  {
    if |text| > 0 {
      UnescapeEscapeRegex(text[1..]);
      var rest := EscapeRegex(text[1..]);
      var e := EscapeChar(text[0]);
      if IsRegexSpecial(text[0]) {
        assert (e + rest)[2..] == rest;
      } else {
        assert (e + rest)[1..] == rest;
      }
      assert text == [text[0]] + text[1..];
    }
  }

  /** Different texts give different patterns. */
  lemma {:induction false} EscapeRegexInjective(a: string, b: string)
    requires EscapeRegex(a) == EscapeRegex(b)
    ensures a == b
  {
    UnescapeEscapeRegex(a);
    UnescapeEscapeRegex(b);
  }

  // ---------------------------------------------------------------------
  // findFieldValue
  // ---------------------------------------------------------------------

  /** `columns.find(col => col.toLowerCase().includes(name.toLowerCase()))`:
      the first column whose lower-cased name contains the lower-cased
      `name`. */
  function FirstColumnContaining(columns: seq<string>, name: string): (r: Option<nat>)
    ensures r.Some? ==> r.value < |columns| && Contains(ToLower(columns[r.value]), ToLower(name))
    ensures r.Some? ==> forall j | 0 <= j < r.value :: !Contains(ToLower(columns[j]), ToLower(name))
    ensures r.None? ==> forall j | 0 <= j < |columns| :: !Contains(ToLower(columns[j]), ToLower(name))
    decreases |columns|
  {
    if |columns| == 0 then None
    else if Contains(ToLower(columns[0]), ToLower(name)) then Some(0)
    else match FirstColumnContaining(columns[1..], name)
      case Some(j) => Some(j + 1)
      case None => None
  }

  /** What one candidate name yields: the trimmed value of the first column
      that matches it, when that column's name and trimmed value are both
      non-empty. Later matching columns are never consulted. */
  function Candidate(row: Record, name: string): (r: Option<string>)
    ensures r.Some? ==> r.value != "" && IsTrimmed(r.value)
    ensures FirstColumnContaining(Keys(row), name).None? ==> r.None?
    ensures r.Some? ==> var i := FirstColumnContaining(Keys(row), name).value;
      r.value == TrimmedValue(row, row[i].key)
    ensures var f := FirstColumnContaining(Keys(row), name);
      f.Some? && row[f.value].key != "" && TrimmedValue(row, row[f.value].key) != "" ==> r.Some?
  {
    var columns := Keys(row);
    match FirstColumnContaining(columns, name)
    case Some(i) =>
      var column := columns[i];
      var v := TrimmedValue(row, column);
      if column != "" && v != "" then Some(v) else None
    case None => None
  }

  /** The first of `names`, in order, for which `candidate` gives a value, and
      that value; nothing when it gives none for any of them. */
  function FirstYield(names: seq<string>, candidate: string -> Option<string>): (r: Option<string>)
    ensures r.None? <==> forall i | 0 <= i < |names| :: candidate(names[i]).None?
    ensures r.Some? ==> exists i | 0 <= i < |names| :: candidate(names[i]) == r
    decreases |names|
  {
    if |names| == 0 then None
    else
      var c := candidate(names[0]);
      if c.Some? then c
      else
        assert forall i | 0 < i < |names| :: names[1..][i - 1] == names[i];
        FirstYield(names[1..], candidate)
  }

  /** The first name that yields a value decides the result. */
  lemma {:induction false} FirstYieldFirst(names: seq<string>, candidate: string -> Option<string>, i: nat)
    requires i < |names| && candidate(names[i]).Some?
    requires forall j | 0 <= j < i :: candidate(names[j]).None?
    ensures FirstYield(names, candidate) == candidate(names[i])
    decreases i
  {
    if i > 0 {
      var rest := names[1..];
      assert candidate(names[0]).None?;
      assert forall j | 0 <= j < i - 1 :: rest[j] == names[j + 1];
      FirstYieldFirst(rest, candidate, i - 1);
    }
  }

  /** `findFieldValue`: the value for the first candidate name, in priority
      order, that yields one; `null` when none does. */
  function FindFieldValue(row: Record, names: seq<string>): (r: Option<string>)
    ensures r.None? <==> forall i | 0 <= i < |names| :: Candidate(row, names[i]).None?
    ensures r.Some? ==> r.value != "" && IsTrimmed(r.value)
  {
    FirstYield(names, name => Candidate(row, name))
  }

  /** The value found is that of the first name that yields one: later
      names are not consulted. */
  lemma {:induction false} FindFieldValueFirst(row: Record, names: seq<string>, i: nat)
    requires i < |names| && Candidate(row, names[i]).Some?
    requires forall j | 0 <= j < i :: Candidate(row, names[j]).None?
    ensures FindFieldValue(row, names) == Candidate(row, names[i])
  {
    FirstYieldFirst(names, name => Candidate(row, name), i);
  }

  lemma {:induction false} ContainsHead(s: string, t: string)
    requires |t| > 0 && Contains(s, t)
    ensures t[0] in s
  {
    var i :| 0 <= i <= |s| - |t| && OccursAt(s, t, i);
    assert s[i] == t[0];
  }

  /** A blank value in the first column that matches a name hides a later
      column that matches it too: with a blank "phone" column and a filled
      "mobile phone" column, asking for "phone" yields nothing. */
  lemma FindFieldValueFirstColumnOnly()
    ensures var row := [Field("phone", " "), Field("mobile phone", "0791234567")];
      && FindFieldValue(row, ["phone"]) == None
      && Contains(ToLower("mobile phone"), "phone")
      && TrimmedValue(row, "mobile phone") == "0791234567"
  {
    var row := [Field("phone", " "), Field("mobile phone", "0791234567")];
    ToLowerOfLower("phone");
    ToLowerOfLower("mobile phone");
    assert OccursAt("phone", "phone", 0);
    assert OccursAt("mobile phone", "phone", 7);
    assert Keys(row)[0] == "phone";
    assert FirstColumnContaining(Keys(row), "phone") == Some(0);
    assert Lookup(row, "phone") == " ";
    assert Trim(" ") == "";
    assert Candidate(row, "phone") == None;
    assert Lookup(row, "mobile phone") == "0791234567";
    TrimOfTrimmed("0791234567");
  }

  // ---------------------------------------------------------------------
  // getIconForColumn
  // ---------------------------------------------------------------------

  /** A rule of the icon cascade: a column whose lower-cased name contains
      any of the keywords gets the icon. */
  datatype IconRule = IconRule(keywords: seq<string>, icon: string)

  /** The rules, tried in order. */
  const IconRules: seq<IconRule> := [
    IconRule(["هاتف", "تلفون", "phone"], "fas fa-phone"),
    IconRule(["عنوان", "موقع", "address", "location"], "fas fa-map-marker-alt"),
    IconRule(["بريد", "email"], "fas fa-envelope"),
    IconRule(["مهنة", "تخصص", "profession"], "fas fa-briefcase"),
    IconRule(["خدمة", "service"], "fas fa-tools")
  ]

  /** The icon when no rule applies. */
  const DefaultIcon := "fas fa-info-circle"

  predicate RuleApplies(rule: IconRule, lower: string) {
    exists k | 0 <= k < |rule.keywords| :: Contains(lower, rule.keywords[k])
  }

  /** The icon of the first rule that applies, or the default. */
  function FirstRuleIcon(rules: seq<IconRule>, lower: string): (icon: string)
    ensures icon == DefaultIcon || exists i | 0 <= i < |rules| :: icon == rules[i].icon
    ensures (exists i | 0 <= i < |rules| :: RuleApplies(rules[i], lower)) ==>
      exists i | 0 <= i < |rules| :: RuleApplies(rules[i], lower) && icon == rules[i].icon
    decreases |rules|
  {
    if |rules| == 0 then DefaultIcon
    else if RuleApplies(rules[0], lower) then rules[0].icon
    else
      var icon := FirstRuleIcon(rules[1..], lower);
      assert forall i | 0 < i < |rules| :: rules[1..][i - 1] == rules[i];
      icon
  }

  /** `getIconForColumn`. */
  function GetIconForColumn(column: string): (icon: string)
    ensures icon == DefaultIcon || exists i | 0 <= i < |IconRules| :: icon == IconRules[i].icon
  {
    FirstRuleIcon(IconRules, ToLower(column))
  }

  /** The cascade picks the icon of the first rule that applies, and the
      default exactly when none does. */
  lemma {:induction false} FirstRuleIconSpec(rules: seq<IconRule>, lower: string, i: nat)
    requires i < |rules| && RuleApplies(rules[i], lower)
    requires forall j | 0 <= j < i :: !RuleApplies(rules[j], lower)
    ensures FirstRuleIcon(rules, lower) == rules[i].icon
    decreases i
  {
    if i > 0 {
      assert !RuleApplies(rules[0], lower);
      assert forall j | 0 <= j < i - 1 :: rules[1..][j] == rules[j + 1];
      FirstRuleIconSpec(rules[1..], lower, i - 1);
    }
  }

  lemma {:induction false} FirstRuleIconDefault(rules: seq<IconRule>, lower: string)
    requires forall j | 0 <= j < |rules| :: !RuleApplies(rules[j], lower)
    ensures FirstRuleIcon(rules, lower) == DefaultIcon
    decreases |rules|
  {
    if |rules| > 0 {
      assert forall j | 0 <= j < |rules| - 1 :: rules[1..][j] == rules[j + 1];
      FirstRuleIconDefault(rules[1..], lower);
    }
  }

  /** The address rule comes before the e-mail rule, so a column called
      "Email Address" gets the map marker, not the envelope. */
  lemma EmailAddressGetsMapMarker()
    ensures GetIconForColumn("Email Address") == "fas fa-map-marker-alt"
  {
    var lower := ToLower("Email Address");
    assert lower == "email address";
    forall k | 0 <= k < |IconRules[0].keywords|
      ensures !Contains(lower, IconRules[0].keywords[k])
    {
      var w := IconRules[0].keywords[k];
      if Contains(lower, w) {
        ContainsHead(lower, w);
      }
    }
    assert OccursAt(lower, "address", 6);
    assert RuleApplies(IconRules[1], lower) by {
      assert Contains(lower, IconRules[1].keywords[2]);
    }
    FirstRuleIconSpec(IconRules, lower, 1);
  }
}
