/// One scan of a data location.
module Inspections {
  import opened DotNet
  import opened DataLocations

  /// Compared by reference. Date-times are modelled as tick counts.
  class Inspection {
    const dataLocation: DataLocation
    const start: int
    var finish: Option<int>

    /// The constructor ignores its optional end time: a new inspection is
    /// always unfinished.
    constructor (dataLocation: DataLocation, start: int, end: Option<int>)
      ensures this.dataLocation == dataLocation && this.start == start
      ensures finish.None?
    {
      this.dataLocation := dataLocation;
      this.start := start;
      finish := None;
    }

    /// Inspection.FinishInspection: records the finish time, nothing else.
    method FinishInspection(finish: int)
      modifies this
      ensures this.finish == Some(finish)
    {
      this.finish := Some(finish);
    }
  }
}
