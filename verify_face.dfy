/**
  Face verification against one stored embedding (services/verify_face.py)
  and its legacy predecessor (services/verify_face_service.py).

  Both are straight-line chains of guards over one read-only lookup, so they
  are functions of the table rows.  The settings object is a parameter.
 */
module VerifyFace {
  import opened Failures
  import opened Vectors
  import opened Directory

  datatype Settings = Settings(embeddingDim: int, faceMatchThreshold: real)

  datatype VerifyFaceRequest = VerifyFaceRequest(employeeId: string, embedding: Vector)

  /** The configuration the service accepts: a positive dimension and a
      positive threshold. */
  predicate SettingsValid(settings: Settings) {
    settings.embeddingDim > 0 && settings.faceMatchThreshold > 0.0
  }

  /** The embedding stored for an existing employee. */
  function StoredEmbedding(rows: seq<Employee>, employeeId: string): Vector
    requires HasId(rows, employeeId)
  {
    GetEmployeeById(rows, employeeId).value.embedding
  }

  /** The cosine similarity of the two normalised vectors, where both exist. */
  function Similarity(k: Kernel, query: Vector, stored: Vector): Result<real> {
    CosineSimilarity(k, k.unitOf(query), k.unitOf(stored))
  }

  /** verify_face_embedding: settings, then length, then lookup, then the query,
      then the stored embedding, then the score.  Each failure is classified as
      the service raises it. */
  function VerifyFaceEmbedding(k: Kernel, req: VerifyFaceRequest, rows: seq<Employee>, settings: Settings)
    : (r: Result<real>)
    // Invalid settings: a server error before anything else is looked at.
    ensures !SettingsValid(settings) ==> r == Err(ServerMisconfigured)
    // Wrong length: rejected as low confidence before the lookup.
    ensures SettingsValid(settings) && |req.embedding| != settings.embeddingDim ==> r == Err(FaceConfidenceTooLow)
    // Unknown employee: the lookup's own error.
    ensures SettingsValid(settings) && |req.embedding| == settings.embeddingDim && !HasId(rows, req.employeeId)
            ==> r == Err(EmployeeNotFound)
    // A zero query is the caller's fault, and is checked before the stored one.
    ensures SettingsValid(settings) && |req.embedding| == settings.embeddingDim && HasId(rows, req.employeeId)
            && IsZero(req.embedding)
            ==> r == Err(FaceConfidenceTooLow)
    // A zero stored embedding is the server's fault.
    ensures SettingsValid(settings) && |req.embedding| == settings.embeddingDim && HasId(rows, req.employeeId)
            && !IsZero(req.embedding) && IsZero(StoredEmbedding(rows, req.employeeId))
            ==> r == Err(ServerMisconfigured)
    // A stored embedding of another length: np.dot's ValueError, unmapped.
    ensures SettingsValid(settings) && |req.embedding| == settings.embeddingDim && HasId(rows, req.employeeId)
            && !IsZero(req.embedding) && !IsZero(StoredEmbedding(rows, req.employeeId))
            && |StoredEmbedding(rows, req.employeeId)| != settings.embeddingDim
            ==> r == Err(InvalidVector)
    // A score below the threshold: low confidence.
    ensures SettingsValid(settings) && |req.embedding| == settings.embeddingDim && HasId(rows, req.employeeId)
            && !IsZero(req.embedding) && !IsZero(StoredEmbedding(rows, req.employeeId))
            && Similarity(k, req.embedding, StoredEmbedding(rows, req.employeeId)).Ok?
            && Similarity(k, req.embedding, StoredEmbedding(rows, req.employeeId)).value < settings.faceMatchThreshold
            ==> r == Err(FaceConfidenceTooLow)
    // Success exactly when every check passes and the score reaches the threshold.
    ensures r.Ok? <==>
      && SettingsValid(settings)
      && |req.embedding| == settings.embeddingDim
      && HasId(rows, req.employeeId)
      && !IsZero(req.embedding)
      && !IsZero(StoredEmbedding(rows, req.employeeId))
      && |StoredEmbedding(rows, req.employeeId)| == settings.embeddingDim
      && Similarity(k, req.embedding, StoredEmbedding(rows, req.employeeId)).Ok?
      && Similarity(k, req.embedding, StoredEmbedding(rows, req.employeeId)).value >= settings.faceMatchThreshold
    ensures r.Ok? ==> r.value == Similarity(k, req.embedding, StoredEmbedding(rows, req.employeeId)).value
    ensures r.Ok? ==> r.value >= settings.faceMatchThreshold && r.value > 0.0
  {
    if settings.embeddingDim <= 0 then Err(ServerMisconfigured)
    else if settings.faceMatchThreshold <= 0.0 then Err(ServerMisconfigured)
    else if |req.embedding| != settings.embeddingDim then Err(FaceConfidenceTooLow)
    else
      var emp :- GetEmployeeById(rows, req.employeeId);
      match Normalize(k, req.embedding)
      case Err(_) => Err(FaceConfidenceTooLow)
      case Ok(queryVec) =>
        match Normalize(k, emp.embedding)
        case Err(_) => Err(ServerMisconfigured)
        case Ok(storedVec) =>
          var score :- CosineSimilarity(k, queryVec, storedVec);
          if score < settings.faceMatchThreshold then Err(FaceConfidenceTooLow) else Ok(score)
  }

  /** A score exactly at the threshold is accepted; any lower valid threshold
      accepts it too. */
  lemma ThresholdIsInclusive(k: Kernel, req: VerifyFaceRequest, rows: seq<Employee>, settings: Settings, lower: real)
    requires VerifyFaceEmbedding(k, req, rows, settings).Ok?
    requires 0.0 < lower <= settings.faceMatchThreshold
    ensures VerifyFaceEmbedding(k, req, rows, settings.(faceMatchThreshold := lower))
         == VerifyFaceEmbedding(k, req, rows, settings)
  {
  }

  /** verify_face_service.verify_face_embedding (legacy): lookup, normalise
      the query, normalise the stored embedding, compare.  Normalisation
      errors surface unmapped; nothing is returned on success. */
  function LegacyVerifyFaceEmbedding(k: Kernel, req: VerifyFaceRequest, rows: seq<Employee>, threshold: real)
    : (r: Result<()>)
    ensures !HasId(rows, req.employeeId) ==> r == Err(EmployeeNotFound)
    ensures HasId(rows, req.employeeId) && (IsZero(req.embedding) || IsZero(StoredEmbedding(rows, req.employeeId)))
            ==> r == Err(InvalidVector)
    ensures HasId(rows, req.employeeId) && |StoredEmbedding(rows, req.employeeId)| != |req.embedding|
            ==> r == Err(InvalidVector)
    ensures HasId(rows, req.employeeId) && !IsZero(req.embedding) && !IsZero(StoredEmbedding(rows, req.employeeId))
            && Similarity(k, req.embedding, StoredEmbedding(rows, req.employeeId)).Ok?
            && Similarity(k, req.embedding, StoredEmbedding(rows, req.employeeId)).value < threshold
            ==> r == Err(FaceConfidenceTooLow)
    ensures r.Ok? <==>
      && HasId(rows, req.employeeId)
      && !IsZero(req.embedding)
      && !IsZero(StoredEmbedding(rows, req.employeeId))
      && |StoredEmbedding(rows, req.employeeId)| == |req.embedding|
      && Similarity(k, req.embedding, StoredEmbedding(rows, req.employeeId)).Ok?
      && Similarity(k, req.embedding, StoredEmbedding(rows, req.employeeId)).value >= threshold
  {
    var emp :- GetEmployeeById(rows, req.employeeId);
    var queryVec :- Normalize(k, req.embedding);
    var storedVec :- Normalize(k, emp.embedding);
    var score :- CosineSimilarity(k, queryVec, storedVec);
    if score < threshold then Err(FaceConfidenceTooLow) else Ok(())
  }

  /** Under a valid configuration and the expected length, the current and the
      legacy service accept exactly the same requests; they differ only in how
      they classify the failures and in what they return. */
  lemma LegacyAgreesOnAcceptance(k: Kernel, req: VerifyFaceRequest, rows: seq<Employee>, settings: Settings)
    requires SettingsValid(settings) && |req.embedding| == settings.embeddingDim
    ensures VerifyFaceEmbedding(k, req, rows, settings).Ok?
       <==> LegacyVerifyFaceEmbedding(k, req, rows, settings.faceMatchThreshold).Ok?
  {
  }
}
