/** A data point as far as the components that pass it on look at it. */
module DataPoints {

  datatype Point = Point(address: string, reading: int)
}
