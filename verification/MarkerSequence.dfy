/** The two edits a table document makes to its shared sequence of cell
    markers, on the sequence's value: removing a range of markers and
    inserting one marker. Each element stands for one marker's "value"
    property. */
module MarkerSequence {

  /** removeText(start, end): drops the markers at positions [start, end). */
  function RemoveText<T>(s: seq<T>, start: int, end: int): (r: seq<T>)
    requires 0 <= start <= end <= |s|
    ensures |r| == |s| - (end - start)
    ensures forall i :: 0 <= i < start ==> r[i] == s[i]
    ensures forall i :: start <= i < |r| ==> r[i] == s[i + (end - start)]
  {
    s[..start] + s[end..]
  }

  /** insertMarker(pos, value): a new marker holding value at position pos;
      the markers from pos on move one place to the right. */
  function InsertMarker<T>(s: seq<T>, pos: int, value: T): (r: seq<T>)
    requires 0 <= pos <= |s|
    ensures |r| == |s| + 1
    ensures r[pos] == value
    ensures forall i :: 0 <= i < pos ==> r[i] == s[i]
    ensures forall i :: pos < i < |r| ==> r[i] == s[i - 1]
  {
    s[..pos] + [value] + s[pos..]
  }

  /** Removing the one marker at a position and inserting a fresh one there
      replaces that marker and nothing else: the length is unchanged. */
  lemma ReplaceIsUpdate<T>(s: seq<T>, pos: int, value: T)
    requires 0 <= pos < |s|
    ensures InsertMarker(RemoveText(s, pos, pos + 1), pos, value) == s[pos := value]
  {
    var r := InsertMarker(RemoveText(s, pos, pos + 1), pos, value);
    assert |r| == |s|;
    forall i | 0 <= i < |s|
      ensures r[i] == s[pos := value][i]
    {
    }
  }
}
