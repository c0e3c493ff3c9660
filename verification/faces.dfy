/** The data model shared by the preload pipeline and the request pipeline. */
module Faces {
  import opened Wrappers

  /** A face descriptor as produced by the recognition network (128 numbers in practice). */
  type Descriptor = seq<real>

  /** Raw image bytes: an uploaded buffer or a downloaded object. */
  type Bytes = seq<bv8>

  /** The distance between two descriptors (`faceapi.euclideanDistance`), kept abstract. */
  type Metric = (Descriptor, Descriptor) -> real

  /**
    * Decoding an image and detecting one face with landmarks and descriptor
    * (`canvas.loadImage` followed by `detectSingleFace(...).withFaceLandmarks().withFaceDescriptor()`):
    * it throws, finds no face, or yields one descriptor.
    */
  type Detector = Bytes -> Attempt<Option<Descriptor>>

  /** One element of `knownFaces`: the identity key of a person and the descriptor of one of their photos. */
  datatype Entry = Entry(name: string, descriptor: Descriptor)
}
