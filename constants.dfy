/** The literals the engine and the pattern files share. */
module Constants {
  /** Name field of a pattern file's header line. */
  const DataName: string := "jgol"
  /** Extension appended to a saved pattern's file name. */
  const FileSuffix: string := "jgol"
  /** Separator between the header line's fields. */
  const DataSeparator: char := ';'
  /** Smallest accepted pixel size of a cell. */
  const MinFieldSize: int := 2
  /** Milliseconds between two generations of the running loop. */
  const DefaultGenerationTimeout: int := 100
}
