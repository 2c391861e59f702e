/** Optional values: the nullable child pointers of QuadTreeNode, and conversions that may fail. */
module Wrappers {

  datatype Option<+T> = None | Some(value: T)
}
