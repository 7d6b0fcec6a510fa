/** The two video codecs. */
module Codecs {
  datatype Codec = H264 | H265
}
