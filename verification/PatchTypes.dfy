/** The inputs of the patch planner, with categories, versions and times already parsed. */
module PatchTypes {
  import opened Common

  type Time = int

  datatype Category =
    | Security
    | Critical
    | Cumulative
    | Feature
    | Driver
    | Firmware
    | MicrosoftProduct
    | UwpApp
    | Definition
    | Optional
    | Preview
    | OtherCategory

  datatype Lifecycle = Installed | Superseded | FailedState | OpenState(text: string)

  /** `osVersion` is the version number found in the title of a macOS update. */
  datatype Update = Update(
    key: string,
    title: string,
    kbArticle: string,
    category: Category,
    lifecycle: Lifecycle,
    superseded: bool,
    downloadedAt: Option<Time>,
    releaseDate: Option<Time>,
    firstDetectedAt: Option<Time>,
    osVersion: Option<seq<nat>>)
}
