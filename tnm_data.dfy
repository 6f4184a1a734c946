/**
 * The data the TNM reader works on: the parsed report (receivers and their
 * result entries), the records it builds, and the layers it hands to the map.
 */
module TnmData {
  import opened Wrappers

  /**
   * One `ReceiverResult` element. `calculated` and `name` are the element
   * texts (None when the element or its text is missing); each level is the
   * value `float` gives for its element (None when the element is missing or
   * its text is not a number).
   */
  datatype Entry = Entry(
    calculated: Option<string>,
    name: Option<string>,
    withBarrierLevel: Option<real>,
    noBarrierLevel: Option<real>,
    noiseReductionDifference: Option<real>)

  /**
   * One `receiver` element: whether it has a `name` child, the three
   * coordinates of its point (None when the point or the coordinate is
   * missing or not a number) and its `ReceiverResults` entries, if any.
   */
  datatype Receiver = Receiver(
    hasName: bool,
    x: Option<real>,
    y: Option<real>,
    z: Option<real>,
    results: Option<seq<Entry>>)

  /** The document root: its `receivers` child, if present. */
  datatype Document = Document(receivers: Option<seq<Receiver>>)

  /** What the file path leads to. */
  datatype Input =
    | Missing           // no file at the path
    | Unparsable        // the XML parser raised
    | Parsed(root: Document)

  /** A calculated result, with its display name and its receiver's point. */
  datatype ReceiverResult = ReceiverResult(
    name: string,
    x: real,
    y: real,
    z: real,
    withBarrierLevel: real,
    noBarrierLevel: real,
    noiseReductionDifference: real)

  /** A result together with the level key it is grouped under. */
  datatype Tagged = Tagged(key: string, result: ReceiverResult)

  /** The three messages the reader shows before giving up. */
  datatype Error =
    | FileDoesNotExist  // "File does not exist"
    | NoReceivers       // "No receivers found in the file"
    | ReadFailed        // "Failed to read the file: ..." (any exception in the read)

  datatype PointXY = PointXY(x: real, y: real)

  /** The attribute values of a feature, in the layer's field order. */
  datatype Attributes = Attributes(
    name: string,
    withBarrier: real,
    noBarrier: real,
    noiseReduction: real)

  datatype Feature = Feature(geometry: PointXY, attributes: Attributes)

  /** An in-memory point layer: its title and its features in order. */
  datatype Layer = Layer(title: string, features: seq<Feature>)
}
