/// A folder on the file system that is scanned: its root directory, when it
/// was given one, and its path.
module DataLocations {
  import opened DotNet
  import opened FsEntities

  /// Compared by reference, as the C# class does not override Equals.
  class DataLocation {
    const directory: Option<FsEntity>
    const path: string

    /// DataLocation(Directory): the root directory, and that directory's Path
    /// read once, at construction.
    constructor FromDirectory(root: FsEntityNode)
      requires root.Linked()
      modifies root.Ancestors()
      ensures directory == Some(root.entity)
      ensures path == old(root.CurrentPath()) && root.path == Some(path)
    {
      var rootPath := root.Path();
      directory := Some(root.entity);
      path := rootPath;
    }

    /// DataLocation(String): a path with no root directory.
    constructor FromPath(dataLocationPath: string)
      ensures directory.None? && path == dataLocationPath
    {
      directory := None;
      path := dataLocationPath;
    }
  }
}
