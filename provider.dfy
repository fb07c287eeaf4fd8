/**
  What the backend receives from the remote embedding and chat-completion
  services. The services themselves are not modelled: callers take them as
  function parameters, so every property holds for whatever they return.
*/
module Provider {

  /** An embedding vector as the embedding service returns it. */
  type Vector = seq<real>

  /** Outcome of `getEmbedding(text)`: the vector, or the error with which
      the awaited call rejects. */
  datatype Embedding = Embedded(vector: Vector) | Failed(reason: string)

}
