/**
 * An import rule: a path pattern, the group and the address an asset that
 * matches it is given, and the labels it carries. The pure functions below
 * say what the rule computes; the class AddressableImportRule holds the
 * rule's fields, two of which its methods overwrite.
 */
module ImportRule {
  import opened Text
  import opened Wildcard
  import opened PathTokens

  datatype MatchType = WildcardMatch | RegexMatch

  datatype LabelWriteMode = Add | Replace

  /** An AssetLabelReference: the name of one label. */
  datatype LabelReference = LabelReference(labelString: string)

  /**
   * The user's regular expressions, in Regex mode, are not interpreted:
   * Regex.IsMatch(input, pattern) and Regex.Replace(input, pattern,
   * replacement) are whatever these two functions say.
   */
  datatype RegexEngine = RegexEngine(
    isMatch: (string, string) -> bool,
    replace: (string, string, string) -> string)

  /**
   * The fields of a rule as the importer reads them once Match has run: the
   * pattern trimmed, and a null addressReplacement read as "", which every
   * use of it treats alike.
   */
  datatype RuleSpec = RuleSpec(
    pattern: string,
    excludeExt: seq<string>,
    matchType: MatchType,
    groupName: string,
    labelMode: LabelWriteMode,
    labelRefs: Option<seq<LabelReference>>,
    simplified: bool,
    addressReplacement: string)

  /**
   * What Match returns for the stored pattern `pattern`: false for a blank
   * pattern; in Wildcard mode, the start-anchored glob test when the pattern
   * holds `*` or `?` and a plain prefix test otherwise; in Regex mode, the
   * user's expression.
   */
  predicate Matches(pattern: string, matchType: MatchType, assetPath: string, rx: RegexEngine) {
    var p := Trim(pattern);
    if p == [] then false
    else match matchType
      case WildcardMatch => if HasGlyph(p) then MatchesAtStart(p, assetPath) else StartsWith(assetPath, p)
      case RegexMatch => rx.isMatch(assetPath, p)
  }

  /**
   * A blank pattern matches nothing. In Wildcard mode the prefix test taken
   * for a pattern without glyphs agrees with the compiled expression, so
   * every Wildcard match is the start-anchored glob test; without glyphs it
   * is exactly a prefix test.
   */
  lemma MatchSemantics(pattern: string, matchType: MatchType, assetPath: string, rx: RegexEngine)
    ensures IsBlank(pattern) ==> !Matches(pattern, matchType, assetPath, rx)
    ensures matchType == WildcardMatch ==>
      (Matches(pattern, matchType, assetPath, rx) <==> Trim(pattern) != [] && MatchesAtStart(Trim(pattern), assetPath))
    ensures matchType == WildcardMatch && !HasGlyph(Trim(pattern)) ==>
      (Matches(pattern, matchType, assetPath, rx) <==> Trim(pattern) != [] && StartsWith(assetPath, Trim(pattern)))
    ensures matchType == RegexMatch ==>
      (Matches(pattern, matchType, assetPath, rx) <==> Trim(pattern) != [] && rx.isMatch(assetPath, Trim(pattern)))
  {
    var p := Trim(pattern);
    TrimFacts(pattern);
    if !HasGlyph(p) {
      LiteralMatchIsPrefix(p, assetPath);
    }
  }

  /**
   * Since a Wildcard pattern is anchored at the start only, a path that
   * extends a matching path matches as well.
   */
  lemma WildcardMatchExtends(pattern: string, assetPath: string, suffix: string, rx: RegexEngine)
    requires Matches(pattern, WildcardMatch, assetPath, rx)
    ensures Matches(pattern, WildcardMatch, assetPath + suffix, rx)
  {
    MatchSemantics(pattern, WildcardMatch, assetPath, rx);
    MatchSemantics(pattern, WildcardMatch, assetPath + suffix, rx);
    MatchExtends(Trim(pattern), assetPath, suffix);
  }

  /**
   * A Wildcard pattern is judged from the path's first character: a path
   * whose first character differs from the pattern's leading literal does not
   * match, whatever follows.
   */
  lemma WildcardLeadingMismatch(pattern: string, assetPath: string, rx: RegexEngine)
    requires Trim(pattern) != [] && Trim(pattern)[0] != '*' && Trim(pattern)[0] != '?'
    requires assetPath == [] || assetPath[0] != Trim(pattern)[0]
    ensures !Matches(pattern, WildcardMatch, assetPath, rx)
  {
    MatchSemantics(pattern, WildcardMatch, assetPath, rx);
    LeadingLiteralMismatch(Trim(pattern), assetPath);
  }

  /** The group template has to be expanded: neither the pattern nor the template is blank. */
  predicate ExpandsGroup(pattern: string, groupName: string) {
    !IsBlank(pattern) && !IsBlank(groupName)
  }

  /**
   * The address template has to be expanded: the pattern is not blank, and
   * the rule is simplified or its template is not blank. The expansion is
   * computed even in the modes that then discard it.
   */
  predicate ExpandsAddress(pattern: string, simplified: bool, addressReplacement: string) {
    !IsBlank(pattern) && (simplified || !IsBlank(addressReplacement))
  }

  /**
   * ParseGroupReplacement: None (null) for a blank pattern or group template;
   * otherwise the template with its path tokens expanded, and in Regex mode
   * that expansion used as the replacement of the user's expression over the
   * asset path.
   */
  function GroupReplacement(pattern: string, matchType: MatchType, groupName: string,
                            assetPath: string, rx: RegexEngine): (r: Option<string>)
    requires ExpandsGroup(pattern, groupName) ==> ExpansionTerminates(assetPath, groupName)
    ensures r.None? <==> !ExpandsGroup(pattern, groupName)
    ensures r.Some? && matchType == WildcardMatch ==> r.value == Expand(assetPath, groupName)
    ensures r.Some? && matchType == RegexMatch ==>
      r.value == rx.replace(assetPath, pattern, Expand(assetPath, groupName))
  {
    if !ExpandsGroup(pattern, groupName) then None
    else
      var replacement := Expand(assetPath, groupName);
      match matchType
      case WildcardMatch => Some(replacement)
      case RegexMatch => Some(rx.replace(assetPath, pattern, replacement))
  }

  /**
   * A Wildcard rule whose group template holds no path token names the same
   * group for every asset: the template itself.
   */
  lemma ConstantGroupName(pattern: string, groupName: string, assetPath: string, rx: RegexEngine)
    requires !IsBlank(pattern) && !IsBlank(groupName)
    requires forall k :: 0 <= k <= |groupName| ==> TokenAt(groupName[k..]).None?
    ensures ExpansionTerminates(assetPath, groupName)
    ensures GroupReplacement(pattern, WildcardMatch, groupName, assetPath, rx) == Some(groupName)
  {
    NoTokenTemplateUnchanged(assetPath, groupName);
  }

  /**
   * The file name without its extension, as the replacement `${filename}` of
   * the simplified pattern leaves it: nothing is replaced unless some '/' or
   * '\' has a character after it; then the text after the last such
   * separator is kept, less its extension.
   */
  function SimplifiedName(assetPath: string): string {
    if assetPath == [] then assetPath
    else match LastIndexIn(assetPath[..|assetPath| - 1], DirectorySeparators)
      case None => assetPath
      case Some(k) => StripExtension(assetPath[k + 1..])
  }

  /**
   * The shortest non-empty file name the lazy group can take: the name up to
   * its last '.', unless that '.' is its first character or it has none.
   */
  function StripExtension(name: string): string {
    match LastIndexIn(name, {'.'})
    case Some(d) => if d >= 1 then name[..d] else name
    case None => name
  }

  /**
   * What StripExtension keeps is a non-empty front part of the name, and all
   * of a name without a '.'.
   */
  lemma StripExtensionFacts(name: string)
    ensures var r := StripExtension(name);
      |r| <= |name| && r == name[..|r|] && (name != [] ==> r != []) && (NoneOf(name, {'.'}) ==> r == name)
  {
    LastIndexInFacts(name, {'.'});
  }

  /**
   * The simplified pattern leaves a path without a separator that has a
   * character after it unchanged, and never turns a non-empty path into an
   * empty address.
   */
  lemma SimplifiedNameFacts(assetPath: string)
    ensures |SimplifiedName(assetPath)| <= |assetPath|
    ensures assetPath != [] ==> SimplifiedName(assetPath) != []
    ensures assetPath == [] || NoneOf(assetPath[..|assetPath| - 1], DirectorySeparators) ==>
      SimplifiedName(assetPath) == assetPath
  {
    if assetPath != [] {
      var init := assetPath[..|assetPath| - 1];
      LastIndexInFacts(init, DirectorySeparators);
      match LastIndexIn(init, DirectorySeparators)
      case None =>
      case Some(k) =>
        StripExtensionFacts(assetPath[k + 1..]);
        assert init[k] in DirectorySeparators;
    }
  }

  /** An extension after a non-empty base is what StripExtension removes. */
  lemma StripExtensionOfDotted(base: string, ext: string)
    requires base != [] && NoneOf(ext, {'.'})
    ensures StripExtension(base + ['.'] + ext) == base
  {
    var name := base + ['.'] + ext;
    assert name[|base| + 1..] == ext;
    LastIndexAt(name, |base|, {'.'});
    assert name[..|base|] == base;
  }

  /** A name whose only '.' is its first character keeps it: ".hidden" stays ".hidden". */
  lemma {:induction false} StripExtensionOfLeadingDot(name: string)
    requires NoneOf(name, {'.'})
    ensures StripExtension(['.'] + name) == ['.'] + name
  {
    var full := ['.'] + name;
    assert full[1..] == name;
    LastIndexAt(full, 0, {'.'});
  }

  /**
   * What remains of a file name is the name less what Path.GetExtension
   * reports, whenever the name has a '.' after its first character that is
   * not its last.
   */
  lemma StripExtensionAndGetExtension(base: string, ext: string)
    requires base != [] && ext != [] && NoneOf(ext, {'.'} + DirectorySeparators)
    ensures StripExtension(base + ['.'] + ext) + GetExtension(base + ['.'] + ext) == base + ['.'] + ext
  {
    var name := base + ['.'] + ext;
    assert NoneOf(ext, {'.'});
    StripExtensionOfDotted(base, ext);
    assert name[|base| + 1..] == ext;
    LastIndexAt(name, |base|, {'.'} + DirectorySeparators);
    assert name[..|base|] + name[|base|..] == name;
  }

  /**
   * In simplified mode, for a path made of a directory ending in a separator
   * and a separator-free file name, the address is that file name without its
   * extension.
   */
  lemma SimplifiedNameOfFile(dir: string, name: string)
    requires dir != [] && dir[|dir| - 1] in DirectorySeparators
    requires name != [] && NoneOf(name, DirectorySeparators)
    ensures SimplifiedName(dir + name) == StripExtension(name)
  {
    var p := dir + name;
    var k := |dir| - 1;
    LastSeparatorOfFile(dir, name);
    SimplifiedNameAfter(p, k);
    assert p[k + 1..] == name;
  }

  /** The last separator of a directory-and-file path that has a character after it is the directory's last. */
  lemma LastSeparatorOfFile(dir: string, name: string)
    requires dir != [] && dir[|dir| - 1] in DirectorySeparators
    requires name != [] && NoneOf(name, DirectorySeparators)
    ensures |dir + name| >= 1
    ensures LastIndexIn((dir + name)[..|dir + name| - 1], DirectorySeparators) == Some(|dir| - 1)
  {
    var p := dir + name;
    var init := p[..|p| - 1];
    assert init[|dir| - 1] in DirectorySeparators;
    assert init[|dir|..] == name[..|name| - 1];
    LastIndexAt(init, |dir| - 1, DirectorySeparators);
  }

  /** With the last usable separator at k, the simplified name is taken from what follows k. */
  lemma SimplifiedNameAfter(p: string, k: nat)
    requires p != [] && LastIndexIn(p[..|p| - 1], DirectorySeparators) == Some(k)
    ensures k + 1 <= |p| && SimplifiedName(p) == StripExtension(p[k + 1..])
  {
  }

  /**
   * The same, stated through the path's segments: the address is the last
   * segment of the path split on '/' and '\', less its extension.
   */
  lemma SimplifiedNameIsLastSegment(dir: string, name: string)
    requires dir != [] && dir[|dir| - 1] in DirectorySeparators
    requires name != [] && NoneOf(name, DirectorySeparators)
    ensures var segments := Split(dir + name, DirectorySeparators);
      SimplifiedName(dir + name) == StripExtension(segments[|segments| - 1])
  {
    SimplifiedNameOfFile(dir, name);
    SplitLast(dir, name, DirectorySeparators);
  }

  /**
   * ParseAddressReplacement: the asset path itself for a blank pattern, or
   * for a rule that is not simplified and has a blank template; otherwise
   * the file name without extension in simplified mode, the path unchanged
   * in Wildcard mode (the pattern `(.*)` replaced by `$1`), and in Regex
   * mode the user's expression replaced by the expanded template.
   */
  function AddressReplacement(pattern: string, matchType: MatchType, simplified: bool,
                              addressReplacement: string, assetPath: string, rx: RegexEngine): (r: string)
    requires ExpandsAddress(pattern, simplified, addressReplacement) ==>
      ExpansionTerminates(assetPath, addressReplacement)
    ensures !ExpandsAddress(pattern, simplified, addressReplacement) ==> r == assetPath
    ensures !simplified && matchType == WildcardMatch ==> r == assetPath
    ensures !IsBlank(pattern) && simplified ==> r == SimplifiedName(assetPath)
    ensures ExpandsAddress(pattern, simplified, addressReplacement) && !simplified && matchType == RegexMatch ==>
      r == rx.replace(assetPath, pattern, Expand(assetPath, addressReplacement))
  {
    if !ExpandsAddress(pattern, simplified, addressReplacement) then assetPath
    else if simplified then SimplifiedName(assetPath)
    else match matchType
      case WildcardMatch => assetPath
      case RegexMatch => rx.replace(assetPath, pattern, Expand(assetPath, addressReplacement))
  }

  /** The labels getter: each reference's label, in order; none when the list is null. */
  function Labels(labelRefs: Option<seq<LabelReference>>): (labels: seq<string>)
    ensures labelRefs.None? ==> labels == []
    ensures labelRefs.Some? ==> |labels| == |labelRefs.value|
    ensures labelRefs.Some? ==> forall k :: 0 <= k < |labels| ==> labels[k] == labelRefs.value[k].labelString
  {
    match labelRefs
    case None => []
    case Some(refs) => seq(|refs|, k requires 0 <= k < |refs| => refs[k].labelString)
  }

  /** HasLabel: the reference list is present and not empty. */
  predicate HasLabel(labelRefs: Option<seq<LabelReference>>) {
    labelRefs.Some? && |labelRefs.value| > 0
  }

  /** A rule has a label exactly when its labels getter yields one. */
  lemma HasLabelIffLabels(labelRefs: Option<seq<LabelReference>>)
    ensures HasLabel(labelRefs) <==> |Labels(labelRefs)| > 0
  {
  }

  /** The expansions a rule performs on an asset path all come to an end. */
  predicate RuleTerminates(rule: RuleSpec, assetPath: string) {
    (ExpandsGroup(rule.pattern, rule.groupName) ==> ExpansionTerminates(assetPath, rule.groupName)) &&
    (ExpandsAddress(rule.pattern, rule.simplified, rule.addressReplacement) ==>
      ExpansionTerminates(assetPath, rule.addressReplacement))
  }

  /** A rule takes effect on a path: the pattern matches and the extension is not excluded. */
  predicate Applies(rule: RuleSpec, assetPath: string, rx: RegexEngine) {
    Matches(rule.pattern, rule.matchType, assetPath, rx) && GetExtension(assetPath) !in rule.excludeExt
  }

  /** The group name a rule gives an asset, as a RuleSpec. */
  function RuleGroup(rule: RuleSpec, assetPath: string, rx: RegexEngine): Option<string>
    requires RuleTerminates(rule, assetPath)
  {
    GroupReplacement(rule.pattern, rule.matchType, rule.groupName, assetPath, rx)
  }

  /** The address a rule gives an asset, as a RuleSpec. */
  function RuleAddress(rule: RuleSpec, assetPath: string, rx: RegexEngine): string
    requires RuleTerminates(rule, assetPath)
  {
    AddressReplacement(rule.pattern, rule.matchType, rule.simplified, rule.addressReplacement, assetPath, rx)
  }

  class AddressableImportRule {
    /** The path pattern; Match stores it back trimmed. */
    var path: string
    const excludeExt: seq<string>
    const matchType: MatchType
    /** The group template; a null one is held as "", which the rule treats alike. */
    const groupName: string
    const labelMode: LabelWriteMode
    const labelRefs: Option<seq<LabelReference>>
    const simplified: bool
    /** The address template; ParseAddressReplacement replaces a null one by "". */
    var addressReplacement: Option<string>

    constructor(path: string, excludeExt: seq<string>, matchType: MatchType, groupName: string,
                labelMode: LabelWriteMode, labelRefs: Option<seq<LabelReference>>, simplified: bool,
                addressReplacement: Option<string>)
      ensures this.path == path && this.excludeExt == excludeExt && this.matchType == matchType
      ensures this.groupName == groupName && this.labelMode == labelMode && this.labelRefs == labelRefs
      ensures this.simplified == simplified && this.addressReplacement == addressReplacement
    {
      this.path := path;
      this.excludeExt := excludeExt;
      this.matchType := matchType;
      this.groupName := groupName;
      this.labelMode := labelMode;
      this.labelRefs := labelRefs;
      this.simplified := simplified;
      this.addressReplacement := addressReplacement;
    }

    /** The rule as the importer sees it; neither of the rule's methods changes it. */
    function Spec(): RuleSpec
      reads this
    {
      RuleSpec(Trim(path), excludeExt, matchType, groupName, labelMode, labelRefs, simplified,
               addressReplacement.GetOr(""))
    }

    /** Match: stores the trimmed pattern, then tests the asset path against it. */
    method Match(assetPath: string, rx: RegexEngine) returns (b: bool)
      modifies this`path
      ensures path == Trim(old(path))
      ensures b == Matches(old(path), matchType, assetPath, rx)
      ensures Spec() == old(Spec())
    {
      var p := Trim(path);
      TrimIdempotent(path);
      assert Trim(p) == p;
      path := p;
      assert Trim(path) == Trim(old(path));
      if p == [] {
        return false;
      }
      if matchType == WildcardMatch {
        if '*' in p || '?' in p {
          b := MatchesAtStart(p, assetPath);
        } else {
          b := StartsWith(assetPath, p);
        }
      } else {
        b := rx.isMatch(assetPath, p);
      }
    }

    /** ParseGroupReplacement, with the token expansion done by ParsePath. */
    method ParseGroupReplacement(assetPath: string, rx: RegexEngine) returns (r: Option<string>)
      requires ExpandsGroup(path, groupName) ==> ExpansionTerminates(assetPath, groupName)
      ensures r == GroupReplacement(path, matchType, groupName, assetPath, rx)
    {
      if IsBlank(path) || IsBlank(groupName) {
        return None;
      }
      var replacement := ParsePath(assetPath, groupName);
      if matchType == RegexMatch {
        replacement := rx.replace(assetPath, path, replacement);
      }
      r := Some(replacement);
    }

    /**
     * ParseAddressReplacement: once past the two early returns a null
     * template is stored as "", and the template is expanded even when the
     * mode then discards it.
     */
    method ParseAddressReplacement(assetPath: string, rx: RegexEngine) returns (r: string)
      requires ExpandsAddress(path, simplified, addressReplacement.GetOr("")) ==>
        ExpansionTerminates(assetPath, addressReplacement.GetOr(""))
      modifies this`addressReplacement
      ensures r == AddressReplacement(path, matchType, simplified, old(addressReplacement).GetOr(""), assetPath, rx)
      ensures addressReplacement ==
        if ExpandsAddress(path, simplified, old(addressReplacement).GetOr(""))
        then Some(old(addressReplacement).GetOr(""))
        else old(addressReplacement)
      ensures Spec() == old(Spec())
    {
      if IsBlank(path) {
        return assetPath;
      }
      if !simplified && IsBlank(addressReplacement.GetOr("")) {
        return assetPath;
      }
      if addressReplacement.None? {
        addressReplacement := Some("");
      }
      var replacement := ParsePath(assetPath, addressReplacement.value);
      if simplified {
        r := SimplifiedName(assetPath);
      } else if matchType == WildcardMatch {
        r := assetPath;
      } else {
        r := rx.replace(assetPath, path, replacement);
      }
    }

    /** HasLabel of this rule. */
    function HasAnyLabel(): (b: bool)
      reads this
      ensures b <==> |Labels(labelRefs)| > 0
    {
      HasLabel(labelRefs)
    }
  }
}
