/** Transfer statistics, as accumulated by the upload and download orchestrators. */
module Transfer {

  datatype TransferStatistics = TransferStatistics(
    filesProcessed: nat, filesTransferred: nat, filesSkipped: nat, bytesTransferred: nat, bytesSkipped: nat)

  const NO_TRANSFER := TransferStatistics(0, 0, 0, 0, 0)

  function Skipped(size: nat): TransferStatistics { TransferStatistics(1, 0, 1, 0, size) }

  function Uploaded(size: nat): TransferStatistics { TransferStatistics(1, 1, 0, size, 0) }

  /** `merge`: field-wise sum. */
  function Merge(a: TransferStatistics, b: TransferStatistics): TransferStatistics {
    TransferStatistics(a.filesProcessed + b.filesProcessed, a.filesTransferred + b.filesTransferred,
      a.filesSkipped + b.filesSkipped, a.bytesTransferred + b.bytesTransferred, a.bytesSkipped + b.bytesSkipped)
  }

  /** Bytes accounted for, moved or found already present. */
  function TotalBytes(s: TransferStatistics): nat { s.bytesTransferred + s.bytesSkipped }

  function Sum(ns: seq<nat>): nat { if ns == [] then 0 else Sum(ns[..|ns| - 1]) + ns[|ns| - 1] }

  lemma {:induction false} SumUpdate(ns: seq<nat>, i: nat, n: nat)
    requires i < |ns|
    ensures Sum(ns[i := n]) + ns[i] == Sum(ns) + n
  {
    var last := |ns| - 1;
    if i == last {
      assert ns[i := n][..last] == ns[..last];
    } else {
      assert ns[i := n][..last] == ns[..last][i := n];
      SumUpdate(ns[..last], i, n);
    }
  }
}
