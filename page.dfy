/** The part of a page that the two scroll handlers of website/app.js read and
    write, as an explicit snapshot of the DOM: layout values are plain inputs. */
module Page {

  /** A DOM attribute value: `null` when the attribute is absent. */
  datatype Option<T> = None | Some(value: T)

  /** An element of class "section": its `id` attribute, its `offsetTop`,
      the `top` of its bounding rectangle relative to the
      viewport, and whether its class list holds "in-view". */
  datatype Section = Section(id: Option<string>, offsetTop: int, viewportTop: real, inView: bool)

  /** An element of class "nav-link": its `href` attribute and whether its
      class list holds "active". */
  datatype NavLink = NavLink(href: Option<string>, active: bool)
}
