module Wrappers {
  datatype Option<+T> = None | Some(value: T)

  lemma Element<T>(s: set<T>) returns (x: T)
    requires s != {}
    ensures x in s
  {
    x :| x in s;
  }
}
