/**
 * The plugin's reaction to vault events: when a markdown file is created or
 * renamed, its header block gets the key `TARGET DECK` set to the file's deck
 * path, and every other header key is left alone.
 */
module Plugin {
  import opened Deck

  /** A vault file as the host hands it over: its vault-relative path and its extension. */
  datatype TFile = TFile(path: string, extension: string)

  /** The plugin's one setting. */
  datatype DeckUpdaterSettings = DeckUpdaterSettings(includeFilename: bool)

  /** The setting used when nothing has been saved. */
  const DefaultSettings: DeckUpdaterSettings := DeckUpdaterSettings(includeFilename := false)

  /** The header key that receives the deck path. */
  const TargetDeckKey: string := "TARGET DECK"

  /** Only files with extension exactly `md` are handled. */
  predicate IsMarkdown(file: TFile)
  {
    file.extension == "md"
  }

  /**
   * The header after the update: `TARGET DECK` holds `deck`, whether or not it
   * was there before, and every other key keeps its value.
   */
  function WithTargetDeck(fm: map<string, string>, deck: string): (r: map<string, string>)
    ensures r.Keys == fm.Keys + {TargetDeckKey}
    ensures r[TargetDeckKey] == deck
    ensures forall k :: k in fm && k != TargetDeckKey ==> r[k] == fm[k]
  {
    fm[TargetDeckKey := deck]
  }

  /** Setting the key twice keeps only the second value. */
  lemma WithTargetDeckOverwrites(fm: map<string, string>, first: string, second: string)
    ensures WithTargetDeck(WithTargetDeck(fm, first), second) == WithTargetDeck(fm, second)
  {
  }

  /** A note's header block, a map from keys to values that the update callback changes in place. */
  class Frontmatter {
    var fields: map<string, string>

    constructor (fields: map<string, string>)
      ensures this.fields == fields
    {
      this.fields := fields;
    }
  }

  /** The plugin object: its settings and its event handlers. */
  class DeckAutoUpdater {
    var settings: DeckUpdaterSettings

    /** The plugin after start-up, holding the settings loaded (or defaulted) by the host. */
    constructor (settings: DeckUpdaterSettings)
      ensures this.settings == settings
    {
      this.settings := settings;
    }

    /** Computes the deck path of `file` and writes it into its header under `TARGET DECK`. */
    method UpdateDeckFrontmatter(file: TFile, fm: Frontmatter)
      modifies fm
      ensures fm.fields == WithTargetDeck(old(fm.fields), BuildDeckPath(file.path, settings.includeFilename))
    {
      var deck := BuildDeckPath(file.path, settings.includeFilename);
      fm.fields := fm.fields[TargetDeckKey := deck];
    }

    /** A new file: a markdown file gets its deck path, any other file is ignored. */
    method OnCreate(file: TFile, fm: Frontmatter)
      modifies fm
      ensures IsMarkdown(file) ==>
        fm.fields == WithTargetDeck(old(fm.fields), BuildDeckPath(file.path, settings.includeFilename))
      ensures !IsMarkdown(file) ==> fm.fields == old(fm.fields)
    {
      if !IsMarkdown(file) {
        return;
      }
      UpdateDeckFrontmatter(file, fm);
    }

    /**
     * A moved or renamed file, given with its new path: a markdown file gets the
     * deck path of its new location, any other file is ignored.
     */
    method OnRename(file: TFile, fm: Frontmatter)
      modifies fm
      ensures IsMarkdown(file) ==>
        fm.fields == WithTargetDeck(old(fm.fields), BuildDeckPath(file.path, settings.includeFilename))
      ensures !IsMarkdown(file) ==> fm.fields == old(fm.fields)
    {
      if !IsMarkdown(file) {
        return;
      }
      UpdateDeckFrontmatter(file, fm);
    }
  }

  /**
   * Creating a file and later renaming it leaves `TARGET DECK` holding the deck
   * of the new path, and every other key as it was before the creation.
   */
  method CreateThenRename(plugin: DeckAutoUpdater, created: TFile, renamed: TFile, fm: Frontmatter)
    requires IsMarkdown(created) && IsMarkdown(renamed)
    modifies fm
    ensures fm.fields == WithTargetDeck(old(fm.fields), BuildDeckPath(renamed.path, plugin.settings.includeFilename))
  {
    plugin.OnCreate(created, fm);
    plugin.OnRename(renamed, fm);
    WithTargetDeckOverwrites(old(fm.fields), BuildDeckPath(created.path, plugin.settings.includeFilename),
      BuildDeckPath(renamed.path, plugin.settings.includeFilename));
  }

  /**
   * A plugin started with the default setting files a newly created note at
   * the vault root under the root deck `obsidian_sync`.
   */
  method CreateAtRootWithDefaults(file: TFile, fm: Frontmatter)
    requires IsMarkdown(file) && |PathSegments(file.path)| == 1
    modifies fm
    ensures fm.fields == WithTargetDeck(old(fm.fields), Root)
  {
    var plugin := new DeckAutoUpdater(DefaultSettings);
    plugin.OnCreate(file, fm);
    RootLevelFile(file.path);
  }
}
