/**
 * The record shapes shared by the web front end: a tree node, the
 * constraints read from a capability element, and the Loxone command.
 */
module Types {
  import opened Wrappers
  import opened Strings
  import opened Dom

  /** `min`/`max` as `parseInt` left them (possibly `NaN`) and the option list. */
  datatype HikCapabilities = HikCapabilities(
    min: Option<JsNumber>,
    max: Option<JsNumber>,
    options: Option<seq<string>>)

  /**
   * One node of the parameter tree. `raw` locates the element the node was
   * made from inside the configuration document; `id` stands for the random
   * identifier of the original, drawn here from a counter.
   */
  datatype HikNode = HikNode(
    id: nat,
    tag: string,
    text: string,
    children: seq<HikNode>,
    fullPath: string,
    capabilities: Option<HikCapabilities>,
    parentTag: Option<string>,
    raw: Path)

  datatype LoxoneConfig = LoxoneConfig(
    address: string,
    instruction: string,
    body: string,
    isDimmer: bool)
}
