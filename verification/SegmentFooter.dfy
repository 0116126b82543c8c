/** Appending index and footer, as the writer does on close and the repairer after a crash. */
module SegmentFooter {
  import opened RecordLayout
  import opened FileModel

  method WriteIndex(file: FileStream, indices: seq<IndexEntry>)
    requires file.pos == |file.data|
    modifies file
    ensures file.pos == |file.data| && file.data == old(file.data) + IndexBytes(indices)
  {
    hide EncodeIndexEntry;
    ghost var kept, written := file.data, [];
    assert indices[0..] == indices;
    for i := 0 to |indices|
      invariant file.pos == |file.data| && file.data == kept + written
      invariant written + IndexBytes(indices[i..]) == IndexBytes(indices)
    {
      ghost var rest := indices[i + 1..];
      ghost var more := EncodeIndexEntry(indices[i]);
      assert indices[i..][0] == indices[i] && indices[i..][1..] == rest;
      assert written + (more + IndexBytes(rest)) == (written + more) + IndexBytes(rest);
      file.Write(EncodeIndexEntry(indices[i]));
      assert kept + (written + more) == (kept + written) + more;
      written := written + more;
    }
    assert written + [] == written;
  }

  method WriteFooter(file: FileStream, indices: seq<IndexEntry>)
    requires file.pos == |file.data|
    modifies file
    ensures file.pos == |file.data| && file.data == old(file.data) + FooterBytes(indices)
  {
    hide IndexBytes, EncodeFooter, FooterFor;
    ghost var kept := file.data;
    WriteIndex(file, indices);
    ghost var footer := EncodeFooter(FooterFor(|indices|));
    file.Write(EncodeFooter(FooterFor(|indices|)));
    assert kept + (IndexBytes(indices) + footer) == kept + IndexBytes(indices) + footer;
  }
}
