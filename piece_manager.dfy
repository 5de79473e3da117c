/**
 * The bookkeeping a piece manager starts with: for every piece of the
 * torrent, an empty list of peers allowed to download it, and every piece
 * ready to be downloaded; nothing asked, nothing counted, no flag set.
 */
module PieceManager {
  import opened Numeric

  type PeerId = seq<byte>
  type PieceId = u32

  /** The worker state of the piece manager; its channels and UI sender are not modelled. */
  datatype PieceManagerWorker = PieceManagerWorker(
    allowedPeersToDownloadPiece: map<PieceId, seq<PeerId>>,
    isDownloading: bool,
    pieceAskedTo: map<PieceId, PeerId>,
    piecesWithoutPeer: set<PieceId>,
    readyToDownloadPieces: set<PieceId>,
    peerPiecesToDownloadCount: map<PeerId, nat>,
    recievedBitfields: nat,
    establishedConnections: nat,
    isAskingTracker: bool)

  /** The piece ids of a torrent with `n` pieces: 0 to n - 1. */
  function PieceIds(n: u32): (ids: set<PieceId>)
    ensures forall i: PieceId :: i in ids <==> i < n
  {
    if n == 0 then {} else PieceIds(n - 1) + {n - 1}
  }

  /** Adding the next id to the ids below it. */
  lemma PieceIdsNext(n: u32)
    requires n < U32_LIMIT - 1
    ensures PieceIds(n + 1) == PieceIds(n) + {n}
  {
  }

  lemma {:induction false} PieceIdsCount(n: u32)
    ensures |PieceIds(n)| == n
  {
    if n > 0 {
      var below: u32 := n - 1;
      PieceIdsCount(below);
      PieceIdsNext(below);
      assert below !in PieceIds(below);
    }
  }

  /** The state `new_piece_manager` builds for `n` pieces. */
  predicate Initial(worker: PieceManagerWorker, n: u32)
  {
    && worker.allowedPeersToDownloadPiece.Keys == PieceIds(n)
    && (forall i :: i in worker.allowedPeersToDownloadPiece ==> worker.allowedPeersToDownloadPiece[i] == [])
    && worker.readyToDownloadPieces == PieceIds(n)
    && worker.pieceAskedTo == map[]
    && worker.piecesWithoutPeer == {}
    && worker.peerPiecesToDownloadCount == map[]
    && !worker.isDownloading && !worker.isAskingTracker
    && worker.recievedBitfields == 0 && worker.establishedConnections == 0
  }

  /**
   * `new_piece_manager`: one loop maps every piece id to an empty peer list,
   * a second collects every piece id as ready; the rest starts empty.
   */
  method NewPieceManager(numberOfPieces: u32) returns (worker: PieceManagerWorker)
    ensures Initial(worker, numberOfPieces)
  {
    var peersPerPiece: map<PieceId, seq<PeerId>> := map[];
    for i: u32 := 0 to numberOfPieces
      invariant peersPerPiece.Keys == PieceIds(i)
      invariant forall k :: k in peersPerPiece ==> peersPerPiece[k] == []
    {
      PieceIdsNext(i);
      peersPerPiece := peersPerPiece[i := []];
    }
    var remainingPieces: set<PieceId> := {};
    for i: u32 := 0 to numberOfPieces
      invariant remainingPieces == PieceIds(i)
    {
      PieceIdsNext(i);
      remainingPieces := remainingPieces + {i};
    }
    worker := PieceManagerWorker(
      allowedPeersToDownloadPiece := peersPerPiece,
      isDownloading := false,
      pieceAskedTo := map[],
      piecesWithoutPeer := {},
      readyToDownloadPieces := remainingPieces,
      peerPiecesToDownloadCount := map[],
      recievedBitfields := 0,
      establishedConnections := 0,
      isAskingTracker := false);
  }

  /** The initial state holds one peer list and one ready entry per piece. */
  lemma InitialSizes(worker: PieceManagerWorker, n: u32)
    requires Initial(worker, n)
    ensures |worker.allowedPeersToDownloadPiece| == n
    ensures |worker.readyToDownloadPieces| == n
    ensures forall i: PieceId :: i in worker.readyToDownloadPieces <==> i in worker.allowedPeersToDownloadPiece
  {
    PieceIdsCount(n);
    assert |worker.allowedPeersToDownloadPiece| == |worker.allowedPeersToDownloadPiece.Keys|;
  }

  /** With no pieces every map and set of the initial state is empty. */
  lemma InitialWithoutPieces(worker: PieceManagerWorker)
    requires Initial(worker, 0)
    ensures worker.allowedPeersToDownloadPiece == map[]
    ensures worker.readyToDownloadPieces == {}
  {
    PieceIdsCount(0);
  }
}
