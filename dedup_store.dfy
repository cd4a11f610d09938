/**
 * The file `processed.bin` holding the ids of the posts already handled
 * (`load_processed`, `dump_processed`). The pickle byte format is not
 * modelled: a file is empty, holds a pickled list of ids, or holds bytes
 * `pickle.loads` rejects.
 */
module DedupStore {
  import opened Wrappers

  datatype StoredFile = EmptyFile | Pickled(ids: seq<int>) | Unpicklable

  /** `load_processed`: an empty file is the empty list; bytes that do not
      unpickle raise, which `None` stands for. */
  function LoadProcessed(file: StoredFile): (r: Option<seq<int>>)
    ensures file == EmptyFile ==> r == Some([])
    ensures file.Pickled? ==> r == Some(file.ids)
    ensures r.None? <==> file == Unpicklable
  {
    match file
    case EmptyFile => Some([])
    case Pickled(ids) => Some(ids)
    case Unpicklable => None
  }

  /** `dump_processed`: the file is rewritten with the whole list. */
  function DumpProcessed(ids: seq<int>): (file: StoredFile)
    ensures LoadProcessed(file) == Some(ids)
    ensures file != EmptyFile
  {
    Pickled(ids)
  }
}
