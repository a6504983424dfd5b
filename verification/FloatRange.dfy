/** The largest finite float, float.h. */
module FloatRange {

  const FLT_MAX := 340282346638528859811704183484516925440.0
}
