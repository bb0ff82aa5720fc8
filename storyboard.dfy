/**
 * The records the storyboard scripts pass around. The analysis is the JSON
 * object the text model returns, after `json.loads`; an image is the picture
 * fetched from the URL a generation service handed back, identified by that URL.
 */
module Storyboard {

  datatype Image = Image(url: string)

  datatype StyleGuide = StyleGuide(
    colorPalette: seq<string>,
    mood: string,
    artisticStyle: string,
    recurringElements: seq<string>)

  datatype Scene = Scene(
    description: string,
    frameDescription: string,
    keyElements: seq<string>)

  datatype Analysis = Analysis(styleGuide: StyleGuide, scenes: seq<Scene>)

  /** The label both JSON-based scripts put before a scene's frame description in its prompt. */
  const FrameLabel := "\n\nFrame description: "
}
