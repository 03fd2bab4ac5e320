/** The application settings and their defaults (src/app_config.rs). */
module Config {

  /** Rust's `u32`. */
  type u32 = x: int | 0 <= x < 0x1_0000_0000

  const U32Max: u32 := 0xFFFF_FFFF

  /** The token in the open command that stands for the image path. */
  const Placeholder: string := "<path>"

  datatype AppConfig = AppConfig(maxDepth: u32, thumbnailSize: u32, openCommand: seq<string>)

  /** `AppConfig::default()`. */
  function Default(): AppConfig {
    AppConfig(2, 200, ["xdg-open", Placeholder])
  }

  /** The scan is bounded two levels below the root and thumbnails fit a 200-pixel box. */
  lemma DefaultScanParameters()
    ensures Default().maxDepth == 2
    ensures Default().thumbnailSize == 200
  {
  }

  /** The default command opens the image with `xdg-open`. */
  lemma DefaultOpenCommand()
    ensures Default().openCommand == ["xdg-open", "<path>"]
  {
  }
}
