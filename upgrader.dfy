/**
 * The directory names the install hooks compute for a registered entry
 * (`upgrader_source_selection` and `upgrader_post_install`). The moves,
 * renames and activations themselves are filesystem work outside the model.
 */
module Upgrader {
  import opened PhpStrings
  import opened Registry

  /** `$remote_source.'/'.current(explode('/', $plugin['name'])).'/'`. */
  function PluginSourceDirectory(remoteSource: string, name: string): string {
    remoteSource + "/" + FirstSegment(name) + "/"
  }

  /** `$remote_source.'/'.$theme['name'].'/'`. */
  function ThemeSourceDirectory(remoteSource: string, name: string): string {
    remoteSource + "/" + name + "/"
  }

  /** `WP_CONTENT_DIR.'/plugins/'.current(explode('/', $plugin['name']))`. */
  function PluginTargetDirectory(contentDir: string, name: string): string {
    contentDir + "/plugins/" + FirstSegment(name)
  }

  /** `WP_CONTENT_DIR.'/themes/'.$theme['name'].'/'`. */
  function ThemeTargetDirectory(contentDir: string, name: string): string {
    contentDir + "/themes/" + name + "/"
  }

  /**
   * For a plugin named from its file path, the unpacked archive goes into a
   * directory named by the theme-name rule, both in the upgrade working area and
   * under `plugins/`: the directory holding the plugin's main file when the path
   * has two or more segments, the file name itself otherwise; it is one path segment.
   */
  lemma PluginDirectoriesFollowFile(remoteSource: string, contentDir: string, file: string)
    ensures PluginSourceDirectory(remoteSource, PluginName(file)) == remoteSource + "/" + ThemeName(file) + "/"
    ensures PluginTargetDirectory(contentDir, PluginName(file)) == contentDir + "/plugins/" + ThemeName(file)
    ensures '/' !in ThemeName(file)
  {
    SlugOfPluginName(file);
  }

  /**
   * A theme named from its file path lands in the directory of the same name,
   * and the plugin and theme derivations agree on that directory.
   */
  lemma ThemeDirectoriesFollowFile(remoteSource: string, contentDir: string, file: string)
    ensures ThemeSourceDirectory(remoteSource, ThemeName(file)) == PluginSourceDirectory(remoteSource, PluginName(file))
    ensures ThemeTargetDirectory(contentDir, ThemeName(file)) == contentDir + "/themes/" + FirstSegment(PluginName(file)) + "/"
  {
    SlugOfPluginName(file);
  }
}
