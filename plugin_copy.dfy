/** The two per-file hooks Grunt's copy task calls when the starter plugin is
    duplicated under a new name (`plugin_copy_config` in Gruntfile.js):
    `process` rewrites the text of every copied file by a fixed chain of
    substitutions, and `rename` computes where the copy goes. */
module PluginCopy {
  import opened Replace
  import opened GuideBlocks

  /** The new plugin's identifiers: `plugin_name`, `plugin_folder`,
      `plugin_slug` and `plugin_domain`. */
  datatype Identifiers = Identifiers(name: string, folder: string, slug: string, domain: string)

  const PluginsUrlTemplate: string := "plugins_url( 'codeandbeauty-starter-plugin/' )"
  const NameToken: string := "GCourse"
  const SlugToken: string := "gcourse"
  const IncludeToken: string := "inc/class-codeandbeauty"
  const FileToken: string := "codeandbeauty"
  const MainFile: string := "codeandbeauty.php"

  /** The `plugins_url(...)` call for the new folder. */
  function PluginsUrl(folder: string): (r: string) {
    "plugins_url( '" + folder + "/' )"
  }

  lemma {:induction false} HyphenateChars(slug: string)
    ensures |ReplaceAll(slug, "_", "-")| == |slug|
    ensures forall i :: 0 <= i < |slug| ==>
      ReplaceAll(slug, "_", "-")[i] == (if slug[i] == '_' then '-' else slug[i])
    decreases |slug|
  {
    if slug != [] {
      ReplaceAllStep(slug, "_", "-");
      HyphenateChars(slug[1..]);
      assert "_" <= slug <==> slug[0] == '_';
    }
  }

  /** `plugin_slug.replace(/_/g, '-')`: every underscore becomes a hyphen and
      nothing else changes. */
  function Hyphenate(slug: string): (r: string)
    ensures |r| == |slug|
    ensures forall i :: 0 <= i < |slug| ==> r[i] == (if slug[i] == '_' then '-' else slug[i])
    ensures '_' !in r
  {
    HyphenateChars(slug);
    ReplaceAll(slug, "_", "-")
  }

  lemma HyphenateExample()
    ensures Hyphenate("my_plugin") == "my-plugin"
  {
    var r := Hyphenate("my_plugin");
    assert forall i | 0 <= i < 9 :: r[i] == "my-plugin"[i];
  }

  /** A slug without underscores is its own hyphenated form. */
  lemma HyphenateWithoutUnderscore(slug: string)
    requires '_' !in slug
    ensures Hyphenate(slug) == slug
  {
  }

  // The substitutions of `process`, in the order the hook applies them.

  /** Gruntfile.js:87: a string pattern, so only its first occurrence. */
  function RewritePluginsUrl(content: string, folder: string): (r: string) {
    ReplaceFirst(content, PluginsUrlTemplate, PluginsUrl(folder))
  }

  /** Gruntfile.js:89. */
  function RenameDisplayName(content: string, name: string): (r: string) {
    ReplaceAll(content, NameToken, name)
  }

  /** Gruntfile.js:90. */
  function RenameSlug(content: string, slug: string): (r: string) {
    ReplaceAll(content, SlugToken, slug)
  }

  /** Gruntfile.js:93-95. */
  function RewriteIncludePaths(content: string, slug: string): (r: string) {
    ReplaceAll(content, IncludeToken, "inc/class-" + Hyphenate(slug))
  }

  /** Gruntfile.js:98: the same token as the slug step, matched again. */
  function RenameTextDomain(content: string, domain: string): (r: string) {
    ReplaceAll(content, SlugToken, domain)
  }

  /** The text the text-domain step receives. */
  function BeforeTextDomain(content: string, ids: Identifiers): (r: string) {
    RewriteIncludePaths(
      RenameSlug(RenameDisplayName(RewritePluginsUrl(content, ids.folder), ids.name), ids.slug),
      ids.slug)
  }

  /** The `process` hook. */
  function Process(content: string, ids: Identifiers): (r: string) {
    StripGuideBlocks(RenameTextDomain(BeforeTextDomain(content, ids), ids.domain))
  }

  /** Content that holds none of the patterns is copied unchanged. */
  lemma ProcessWithoutPatterns(content: string, ids: Identifiers)
    requires !Contains(content, PluginsUrlTemplate)
    requires !Contains(content, NameToken)
    requires !Contains(content, SlugToken)
    requires !Contains(content, IncludeToken)
    requires !Contains(content, Opener)
    ensures Process(content, ids) == content
  {
    ReplaceAllNoMatch(content, NameToken, ids.name);
    ReplaceAllNoMatch(content, SlugToken, ids.slug);
    ReplaceAllNoMatch(content, IncludeToken, "inc/class-" + Hyphenate(ids.slug));
    ReplaceAllNoMatch(content, SlugToken, ids.domain);
    StripNoOpener(content);
  }

  /** The `plugins_url(...)` line becomes the call for the new folder, as long
      as the new line gives the later steps nothing to match. */
  lemma ProcessPluginsUrlLine(ids: Identifiers)
    requires !Contains(PluginsUrl(ids.folder), NameToken)
    requires !Contains(PluginsUrl(ids.folder), SlugToken)
    requires !Contains(PluginsUrl(ids.folder), IncludeToken)
    requires !Contains(PluginsUrl(ids.folder), Opener)
    ensures Process(PluginsUrlTemplate, ids) == PluginsUrl(ids.folder)
  {
    var line := PluginsUrl(ids.folder);
    assert FirstOccurrence(PluginsUrlTemplate, PluginsUrlTemplate, 0);
    assert RewritePluginsUrl(PluginsUrlTemplate, ids.folder) == line;
    ReplaceAllNoMatch(line, NameToken, ids.name);
    ReplaceAllNoMatch(line, SlugToken, ids.slug);
    ReplaceAllNoMatch(line, IncludeToken, "inc/class-" + Hyphenate(ids.slug));
    ReplaceAllNoMatch(line, SlugToken, ids.domain);
    StripNoOpener(line);
  }

  /** With the folder `acme-plugin` the line reads `plugins_url( 'acme-plugin/' )`,
      whatever the other three identifiers are. */
  lemma ProcessPluginsUrlExample(ids: Identifiers)
    requires ids.folder == "acme-plugin"
    ensures Process(PluginsUrlTemplate, ids) == "plugins_url( 'acme-plugin/' )"
  {
    AcmeLineHasNoPatterns();
    ProcessPluginsUrlLine(ids);
  }

  lemma AcmeLineHasNoPatterns()
    ensures PluginsUrl("acme-plugin") == "plugins_url( 'acme-plugin/' )"
    ensures !Contains(PluginsUrl("acme-plugin"), NameToken) && !Contains(PluginsUrl("acme-plugin"), SlugToken)
    ensures !Contains(PluginsUrl("acme-plugin"), IncludeToken) && !Contains(PluginsUrl("acme-plugin"), Opener)
  {
    var line := "plugins_url( 'acme-plugin/' )";
    assert PluginsUrl("acme-plugin") == line;
    AcmeLineChars();
    LacksPatterns(line);
  }

  lemma AcmeLineChars()
    ensures 'G' !in "plugins_url( 'acme-plugin/' )" && 'o' !in "plugins_url( 'acme-plugin/' )"
    ensures 'y' !in "plugins_url( 'acme-plugin/' )" && '*' !in "plugins_url( 'acme-plugin/' )"
  {
    var line := "plugins_url( 'acme-plugin/' )";
    assert forall i | 0 <= i < |line| :: line[i] != 'G' && line[i] != 'o' && line[i] != 'y' && line[i] != '*';
  }

  /** Text lacking one character of each later pattern holds none of them. */
  lemma LacksPatterns(line: string)
    requires 'G' !in line && 'o' !in line && 'y' !in line && '*' !in line
    ensures !Contains(line, NameToken) && !Contains(line, SlugToken)
    ensures !Contains(line, IncludeToken) && !Contains(line, Opener)
  {
    MissingCharNoMatch(line, NameToken, 0);
    MissingCharNoMatch(line, SlugToken, 2);
    MissingCharNoMatch(line, IncludeToken, 22);
    MissingCharNoMatch(line, Opener, 1);
  }

  /** `gcourse` has no `g` past its first character, so it cannot overlap
      itself. */
  lemma SlugTokenHeadOnce()
    ensures SlugToken[0] !in SlugToken[1..]
  {
    var tail := SlugToken[1..];
    assert forall i | 0 <= i < |tail| :: tail[i] != 'g';
  }

  /** The slug step replaces every `gcourse` of its input, wherever it stands:
      around any occurrence, the result is the step applied to the text before
      it, the slug, and the step applied to the text after it. */
  lemma RenameSlugAtEvery(x: string, y: string, slug: string)
    ensures RenameSlug(x + SlugToken + y, slug) == RenameSlug(x, slug) + slug + RenameSlug(y, slug)
  {
    SlugTokenHeadOnce();
    ReplaceAllAround(x, SlugToken, slug, y);
  }

  /** The text-domain step only matters when the earlier steps left or created
      a `gcourse`: otherwise it is a no-op and `plugin_domain` is never used. */
  lemma TextDomainStepNoOp(content: string, ids: Identifiers, domain: string)
    requires !Contains(BeforeTextDomain(content, ids), SlugToken)
    ensures Process(content, ids) == StripGuideBlocks(BeforeTextDomain(content, ids))
    ensures Process(content, ids) == Process(content, ids.(domain := domain))
  {
    ReplaceAllNoMatch(BeforeTextDomain(content, ids), SlugToken, ids.domain);
    ReplaceAllNoMatch(BeforeTextDomain(content, ids), SlugToken, domain);
  }

  /** Up to the text-domain step, a bare `gcourse` becomes the slug. */
  lemma BareTokenBeforeTextDomain(ids: Identifiers)
    requires !Contains(ids.slug, IncludeToken)
    ensures BeforeTextDomain(SlugToken, ids) == ids.slug
  {
    assert !Contains(SlugToken, PluginsUrlTemplate);
    assert !Contains(SlugToken, NameToken) by { MissingCharNoMatch(SlugToken, NameToken, 0); }
    ReplaceAllNoMatch(SlugToken, NameToken, ids.name);
    assert !Contains([], SlugToken);
    ReplaceAllLeading(SlugToken, ids.slug, []);
    assert SlugToken + [] == SlugToken && ids.slug + [] == ids.slug;
    ReplaceAllNoMatch(ids.slug, IncludeToken, "inc/class-" + Hyphenate(ids.slug));
  }

  /** A bare `gcourse` is taken by the slug step, so it ends up as the slug and
      never as the text domain, whatever `plugin_domain` is (provided the slug
      itself gives the later steps nothing to match). */
  lemma SlugStepShadowsTextDomain(ids: Identifiers)
    requires !Contains(ids.slug, IncludeToken) && !Contains(ids.slug, SlugToken)
    requires !Contains(ids.slug, Opener)
    ensures Process(SlugToken, ids) == ids.slug
  {
    BareTokenBeforeTextDomain(ids);
    ReplaceAllNoMatch(ids.slug, SlugToken, ids.domain);
    StripNoOpener(ids.slug);
  }

  lemma SlugStepShadowsTextDomainExample(ids: Identifiers)
    requires ids.slug == "acme_plugin"
    ensures Process("gcourse", ids) == "acme_plugin"
  {
    var slug := "acme_plugin";
    assert forall i | 0 <= i < |slug| :: slug[i] != 'y' && slug[i] != 'o' && slug[i] != '*';
    MissingCharNoMatch(slug, IncludeToken, 22);
    MissingCharNoMatch(slug, SlugToken, 2);
    MissingCharNoMatch(slug, Opener, 1);
    SlugStepShadowsTextDomain(ids);
  }

  /** The text-domain step does fire on a `gcourse` that the slug step itself
      wrote: with a slug such as `gcourse_pro`, a bare `gcourse` ends up as the
      domain followed by the rest of the slug. */
  lemma TextDomainHitsCreatedToken(ids: Identifiers, suffix: string)
    requires ids.slug == SlugToken + suffix
    requires !Contains(ids.slug, IncludeToken) && !Contains(suffix, SlugToken)
    requires !Contains(ids.domain + suffix, Opener)
    ensures Process(SlugToken, ids) == ids.domain + suffix
  {
    BareTokenBeforeTextDomain(ids);
    RenameTextDomainOnce(ids.slug, suffix, ids.domain);
    StripNoOpener(ids.domain + suffix);
  }

  lemma RenameTextDomainOnce(text: string, suffix: string, domain: string)
    requires text == SlugToken + suffix && !Contains(suffix, SlugToken)
    ensures RenameTextDomain(text, domain) == domain + suffix
  {
    ReplaceAllLeading(SlugToken, domain, suffix);
  }

  /** The output can still hold a placeholder: a replacement can complete a
      token with the text that follows it. With the plugin name `GCours`, the
      text `GCoursee` comes out as `GCourse`. */
  lemma LeftoverPlaceholder(ids: Identifiers)
    requires ids.name == "GCours"
    ensures Process(NameToken + "e", ids) == NameToken
  {
    var content := NameToken + "e";
    LeftoverChars();
    assert |content| < |PluginsUrlTemplate|;
    assert !Contains(content, PluginsUrlTemplate);
    MissingCharNoMatch("e", NameToken, 0);
    ReplaceAllLeading(NameToken, ids.name, "e");
    assert ids.name + "e" == NameToken;
    MissingCharNoMatch(NameToken, SlugToken, 0);
    MissingCharNoMatch(NameToken, IncludeToken, 0);
    MissingCharNoMatch(NameToken, Opener, 0);
    ReplaceAllNoMatch(NameToken, SlugToken, ids.slug);
    ReplaceAllNoMatch(NameToken, IncludeToken, "inc/class-" + Hyphenate(ids.slug));
    ReplaceAllNoMatch(NameToken, SlugToken, ids.domain);
    StripNoOpener(NameToken);
  }

  lemma LeftoverChars()
    ensures 'G' !in "e"
    ensures 'g' !in NameToken && 'i' !in NameToken && '/' !in NameToken
  {
    assert forall i | 0 <= i < |NameToken| :: NameToken[i] != 'g' && NameToken[i] != 'i' && NameToken[i] != '/';
  }

  // The `rename` hook.

  /** Where the copy of `srcPath` goes: the main plugin file is named after
      the folder, every other `codeandbeauty` in a path becomes the
      hyphenated slug. */
  function Rename(dest: string, srcPath: string, ids: Identifiers): (r: string) {
    var path :=
      if srcPath == MainFile then ReplaceAll(srcPath, FileToken, ids.folder)
      else ReplaceAll(srcPath, FileToken, Hyphenate(ids.slug));
    dest + "/" + path
  }

  lemma RenameMainFile(dest: string, ids: Identifiers)
    ensures Rename(dest, MainFile, ids) == dest + "/" + ids.folder + ".php"
  {
    assert MainFile == FileToken + ".php";
    assert !Contains(".php", FileToken);
    ReplaceAllLeading(FileToken, ids.folder, ".php");
  }

  /** Any other path keeps everything before its first `codeandbeauty`, which
      becomes the hyphenated slug, and the rest of the path is renamed the same
      way. */
  lemma RenameOtherFile(dest: string, srcPath: string, ids: Identifiers, i: int)
    requires srcPath != MainFile && FirstOccurrence(srcPath, FileToken, i)
    ensures Rename(dest, srcPath, ids)
      == dest + "/" + srcPath[..i] + Hyphenate(ids.slug)
         + ReplaceAll(srcPath[i + |FileToken|..], FileToken, Hyphenate(ids.slug))
  {
    ReplaceAllAtFirst(srcPath, FileToken, Hyphenate(ids.slug), i);
  }

  /** A path without `codeandbeauty` is only placed under `dest`. */
  lemma RenameWithoutToken(dest: string, srcPath: string, ids: Identifiers)
    requires !Contains(srcPath, FileToken)
    ensures Rename(dest, srcPath, ids) == dest + "/" + srcPath
  {
    assert OccursAt(MainFile, FileToken, 0);
    ReplaceAllNoMatch(srcPath, FileToken, Hyphenate(ids.slug));
  }

  /** A path other than the main file with a single `codeandbeauty` gets the
      hyphenated slug in its place, and nothing else changes. */
  lemma RenameSingleToken(dest: string, a: string, b: string, ids: Identifiers)
    requires a + FileToken + b != MainFile
    requires !Contains(a, FileToken) && !Contains(b, FileToken)
    ensures Rename(dest, a + FileToken + b, ids) == dest + "/" + (a + Hyphenate(ids.slug) + b)
  {
    FileTokenHeadOnce();
    NoOverlapFirst(a, FileToken, b);
    ReplaceAllOnce(a, FileToken, Hyphenate(ids.slug), b);
  }

  /** `codeandbeauty` has no `c` past its first character, so it cannot
      overlap itself. */
  lemma FileTokenHeadOnce()
    ensures FileToken[0] !in FileToken[1..]
  {
    var tail := FileToken[1..];
    assert forall i | 0 <= i < |tail| :: tail[i] != 'c';
  }

  /** An included class file is renamed after the hyphenated slug:
      `inc/class-codeandbeauty.php` goes to `dest/inc/class-<slug>.php`. */
  lemma RenameIncludedClassFile(dest: string, ids: Identifiers)
    ensures Rename(dest, "inc/class-codeandbeauty.php", ids)
      == dest + "/" + ("inc/class-" + Hyphenate(ids.slug) + ".php")
  {
    var a, b := "inc/class-", ".php";
    assert a + FileToken + b == "inc/class-codeandbeauty.php";
    assert forall i | 0 <= i < |a| :: a[i] != 'o';
    assert forall i | 0 <= i < |b| :: b[i] != 'c';
    MissingCharNoMatch(a, FileToken, 1);
    MissingCharNoMatch(b, FileToken, 0);
    assert |a + FileToken + b| != |MainFile|;
    RenameSingleToken(dest, a, b, ids);
  }
}
