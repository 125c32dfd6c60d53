/** The status lines the program prints: `keep`, `discard`, `gone` and `deleted`. */
module Report {
  import opened Catalog

  datatype Line =
    | KeepLine(item: ArchiveItem)
    | DiscardLine(item: ArchiveItem)
    | GoneLine(name: string)
    | DeletedLine(name: string)

  /** The text `fmt.Println` writes for the line (its arguments joined by one space). */
  function LineText(l: Line): string
  {
    match l
    case KeepLine(item) => "keep " + ItemString(item)
    case DiscardLine(item) => "discard " + ItemString(item)
    case GoneLine(name) => "gone    " + name
    case DeletedLine(name) => "deleted " + name
  }
}
