/** The element record the partitioners emit, reduced to the fields they set. */
module Elements {
  import opened Wrappers

  /**
   * `ElementMetadata`: a sparse record; `None` is a field that is not set.
   * Values are immutable here, so every copy is independent of the others.
   */
  datatype Metadata = Metadata(
    filename: Option<string>,
    lastModified: Option<string>,
    detectionOrigin: Option<string>)

  /** `ElementMetadata()`: no field set. */
  const EmptyMetadata := Metadata(None, None, None)

  /** An element: its category name, its text and its metadata. */
  datatype Element = Element(category: string, text: string, metadata: Metadata)

  /** The category of the library's plain `Text` element. */
  const TextCategory := "UncategorizedText"
}
