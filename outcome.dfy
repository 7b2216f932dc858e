/** Failure values of the PKD geometry: the three ways construction or
    particle access can abort (each is a thrown exception in the C++). */
module Outcome {

  datatype Error =
    | MissingPosition   // no "position" data bound to the geometry
    | NotImplemented    // a particle format other than float3 or 64-bit key
    | InvalidRadius     // the "radius" parameter is not strictly positive

  datatype Result<+T> = Ok(value: T) | Err(error: Error)

  datatype Option<+T> = None | Some(value: T)
}
